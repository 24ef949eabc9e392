/** The grammar compiler itself: the recursive-descent parser that lowers while it reads,
    with its symbol table and its growing list of flat rules. */
module GrammarCompiler {
  import opened GrammarText
  import opened GrammarSyntax
  import opened GrammarSource
  import opened GrammarLowering

  // ----- the symbol table -----

  lemma WordsAreUserNames(name: string)
    requires IsWord(name)
    ensures IsUserName(name)
  {
  }

  function GeneratedName(base: string, id: nat): string {
    base + "_" + Decimal(id)
  }

  ghost predicate IsGenerated(name: string, id: nat) {
    exists base: string :: IsUserName(base) && name == GeneratedName(base, id)
  }

  /** `names` lists the symbols in the order of their identifiers, so identifiers are a
      bijection onto 0, 1, ..., size - 1; every symbol is an author's name or a generated one. */
  ghost predicate SymbolsOk(ids: Symbols, names: seq<string>) {
    && |ids| == |names|
    && (forall n :: n in ids ==> ids[n] < |names| && names[ids[n]] == n)
    && (forall i :: 0 <= i < |names| ==> names[i] in ids && ids[names[i]] == i)
    && (forall i :: 0 <= i < |names| ==> IsUserName(names[i]) || IsGenerated(names[i], i))
  }

  /** Generated names never collide, with each other or with an author's name. */
  lemma GeneratedNamesDiffer(base: string, i: nat, base': string, j: nat)
    requires IsUserName(base) && IsUserName(base')
    requires GeneratedName(base, i) == GeneratedName(base', j)
    ensures base == base' && i == j
  {
    DecimalRoundTrip(i);
    DecimalRoundTrip(j);
    SplitAtMark(base, Decimal(i), base', Decimal(j));
  }

  lemma SplitAtMark(a: string, b: string, a': string, b': string)
    requires '_' !in a && '_' !in a' && a + "_" + b == a' + "_" + b'
    ensures a == a' && b == b'
  {
    var s := a + "_" + b;
    assert s[|a|] == '_' && s[|a'|] == '_';
    assert forall t :: 0 <= t < |a| ==> s[t] == a[t];
    assert forall t :: 0 <= t < |a'| ==> s[t] == a'[t];
    assert |a| == |a'|;
    assert a == s[..|a|] && b == s[|a| + 1..] && a' == s[..|a'|] && b' == s[|a'| + 1..];
  }

  lemma FreshGenerated(ids: Symbols, names: seq<string>, base: string)
    requires SymbolsOk(ids, names) && IsUserName(base)
    ensures !IsUserName(GeneratedName(base, |names|)) && GeneratedName(base, |names|) !in ids
  {
    var name := GeneratedName(base, |names|);
    assert name[|base|] == '_';
    if name in ids {
      var i := ids[name];
      var other :| IsUserName(other) && name == GeneratedName(other, i);
      GeneratedNamesDiffer(base, |names|, other, i);
    }
  }

  // ----- well-formed rules -----

  predicate RefsBelow(es: seq<Element>, n: nat) {
    forall i :: 0 <= i < |es| && es[i].RuleRef? ==> es[i].id < n
  }

  /** Every range end and every further class character follows a character element. */
  predicate Chained(es: seq<Element>) {
    forall i :: 0 <= i < |es| && es[i].IsModifier() ==> i > 0 && es[i - 1].IsChar()
  }

  predicate RuleOk(rule: seq<Element>, n: nat) {
    && rule != [] && rule[|rule| - 1].End?
    && (forall i :: 0 <= i < |rule| - 1 ==> !rule[i].End?)
    && RefsBelow(rule, n) && Chained(rule)
  }

  predicate RulesOk(rules: Rules, n: nat) {
    |rules| <= n && forall i :: 0 <= i < |rules| ==> rules[i] == [] || RuleOk(rules[i], n)
  }

  // ----- what parsing a piece of text may do to the tables -----

  /** Symbols were only added, no rule of an older symbol other than `except` changed, and
      the author's names among the new symbols have no rule yet. */
  ghost predicate Grown(names: seq<string>, rules: Rules, names': seq<string>, rules': Rules, except: int) {
    && names <= names'
    && (forall id :: 0 <= id < |names| && id != except ==> RuleAt(rules', id) == RuleAt(rules, id))
    && (forall id :: |names| <= id < |names'| && IsUserName(names'[id]) ==> RuleAt(rules', id) == [])
  }

  /** What earlier lowering relied on is still there. */
  ghost predicate Stable(ids: Symbols, rules: Rules, ids': Symbols, rules': Rules) {
    && (forall n :: n in ids ==> n in ids' && ids'[n] == ids[n])
    && (forall id: nat :: Synthesized(ids, id) ==> Synthesized(ids', id))
    && (forall id: nat :: Synthesized(ids, id) && RuleAt(rules, id) != [] ==> RuleAt(rules', id) == RuleAt(rules, id))
  }

  lemma GrownIsStable(ids: Symbols, names: seq<string>, rules: Rules, ids': Symbols, names': seq<string>,
                      rules': Rules, except: int)
    requires SymbolsOk(ids, names) && SymbolsOk(ids', names') && Grown(names, rules, names', rules', except)
    requires 0 <= except < |names| ==> IsUserName(names[except]) || RuleAt(rules, except) == []
    ensures Stable(ids, rules, ids', rules')
  {
    forall n | n in ids ensures n in ids' && ids'[n] == ids[n] {
      assert names'[ids[n]] == n;
    }
    forall id: nat | Synthesized(ids, id)
      ensures Synthesized(ids', id)
      ensures RuleAt(rules, id) != [] ==> RuleAt(rules', id) == RuleAt(rules, id)
    {
      assert names'[id] == names[id] && ids[names[id]] == id;
    }
  }

  lemma {:induction false} ItemStable(ids: Symbols, rules: Rules, ids': Symbols, rules': Rules, es: seq<Element>,
                                      item: Item)
    requires LowersItem(ids, rules, es, item) && Stable(ids, rules, ids', rules')
    ensures LowersItem(ids', rules', es, item)
    decreases item
  {
    match item
    case Group(body) =>
      var rule := RuleAt(rules, es[0].id);
      AlternatesStable(ids, rules, ids', rules', rule[..|rule| - 1], body);
      GroupStable(ids, rules, ids', rules', es, body, rule);
    case Repeat(op, operand) =>
      var rule := RuleAt(rules, es[0].id);
      ItemStable(ids, rules, ids', rules', rule[..Width(operand)], operand);
      RepeatStable(ids, rules, ids', rules', es, op, operand, rule);
    case _ =>
  }

  lemma GroupStable(ids: Symbols, rules: Rules, ids': Symbols, rules': Rules, es: seq<Element>, body: Alternates,
                    rule: seq<Element>)
    requires LowersItem(ids, rules, es, Group(body)) && Stable(ids, rules, ids', rules')
    requires rule == RuleAt(rules, es[0].id) && LowersAlternates(ids', rules', rule[..|rule| - 1], body)
    ensures LowersItem(ids', rules', es, Group(body))
  {
    assert RuleAt(rules', es[0].id) == rule;
  }

  lemma RepeatStable(ids: Symbols, rules: Rules, ids': Symbols, rules': Rules, es: seq<Element>, op: RepeatOp,
                     operand: Item, rule: seq<Element>)
    requires LowersItem(ids, rules, es, Repeat(op, operand)) && Stable(ids, rules, ids', rules')
    requires rule == RuleAt(rules, es[0].id) && LowersItem(ids', rules', rule[..Width(operand)], operand)
    ensures LowersItem(ids', rules', es, Repeat(op, operand))
  {
    assert RuleAt(rules', es[0].id) == rule;
  }

  lemma {:induction false} SequenceStable(ids: Symbols, rules: Rules, ids': Symbols, rules': Rules, es: seq<Element>,
                                          s: Sequence)
    requires LowersSequence(ids, rules, es, s) && Stable(ids, rules, ids', rules')
    ensures LowersSequence(ids', rules', es, s)
    decreases s
  {
    match s
    case Empty =>
    case Then(init, last) =>
      SequenceStable(ids, rules, ids', rules', es[..SequenceWidth(init)], init);
      ItemStable(ids, rules, ids', rules', es[SequenceWidth(init)..], last);
  }

  lemma {:induction false} AlternatesStable(ids: Symbols, rules: Rules, ids': Symbols, rules': Rules,
                                            es: seq<Element>, a: Alternates)
    requires LowersAlternates(ids, rules, es, a) && Stable(ids, rules, ids', rules')
    ensures LowersAlternates(ids', rules', es, a)
    decreases a
  {
    match a
    case Single(only) => SequenceStable(ids, rules, ids', rules', es, only);
    case Or(front, back) =>
      AlternatesStable(ids, rules, ids', rules', es[..AlternatesWidth(front)], front);
      SequenceStable(ids, rules, ids', rules', es[AlternatesWidth(front) + 1..], back);
  }

  // ----- lowered elements are well formed -----

  predicate PieceOk(es: seq<Element>, n: nat) {
    RefsBelow(es, n) && Chained(es)
  }

  lemma PieceAppend(a: seq<Element>, b: seq<Element>, n: nat)
    requires PieceOk(a, n) && PieceOk(b, n)
    ensures PieceOk(a + b, n)
  {
    var es := a + b;
    forall i | 0 <= i < |es| && es[i].IsModifier() ensures i > 0 && es[i - 1].IsChar() {
      if i >= |a| { assert es[i] == b[i - |a|]; }
    }
  }

  lemma {:induction false} AltElementsChained(items: seq<ClassItem>)
    ensures forall i :: 0 <= i < |AltElements(items)| ==> AltElements(items)[i].IsChar()
  {
    if items != [] { AltElementsChained(items[1..]); }
  }

  lemma {:induction false} ItemPiece(ids: Symbols, names: seq<string>, rules: Rules, es: seq<Element>, item: Item)
    requires LowersItem(ids, rules, es, item) && SymbolsOk(ids, names)
    ensures PieceOk(es, |names|)
  {
    match item
    case Literal(chars) => LiteralShape(chars);
    case Class(negated, items) => ClassPiece(negated, items, |names|);
    case _ =>
  }

  lemma ClassPiece(negated: bool, items: seq<ClassItem>, n: nat)
    ensures PieceOk(ClassElements(negated, items), n)
  {
    if items != [] {
      var c := LowerOf(items[0]);
      AltElementsChained(items[1..]);
      CharsChained(if negated then CharNot(c) else Char(c), UpperOf(items[0]) + AltElements(items[1..]), n);
      var first := if negated then CharNot(c) else Char(c);
      assert ClassElements(negated, items) == [first] + (UpperOf(items[0]) + AltElements(items[1..]));
    }
  }

  lemma CharsChained(e: Element, es: seq<Element>, n: nat)
    requires e.IsChar() && !e.IsModifier() && forall i :: 0 <= i < |es| ==> es[i].IsChar()
    ensures PieceOk([e] + es, n)
  {
  }

  lemma {:induction false} SequencePiece(ids: Symbols, names: seq<string>, rules: Rules, es: seq<Element>, s: Sequence)
    requires LowersSequence(ids, rules, es, s) && SymbolsOk(ids, names)
    ensures PieceOk(es, |names|)
    decreases s
  {
    match s
    case Empty =>
    case Then(init, last) =>
      var m := SequenceWidth(init);
      SequencePiece(ids, names, rules, es[..m], init);
      ItemPiece(ids, names, rules, es[m..], last);
      PieceAppend(es[..m], es[m..], |names|);
      assert es == es[..m] + es[m..];
  }

  lemma {:induction false} AlternatesPiece(ids: Symbols, names: seq<string>, rules: Rules, es: seq<Element>,
                                           a: Alternates)
    requires LowersAlternates(ids, rules, es, a) && SymbolsOk(ids, names)
    ensures PieceOk(es, |names|)
    decreases a
  {
    match a
    case Single(only) => SequencePiece(ids, names, rules, es, only);
    case Or(front, back) =>
      var m := AlternatesWidth(front);
      AlternatesPiece(ids, names, rules, es[..m], front);
      SequencePiece(ids, names, rules, es[m + 1..], back);
      PieceAround(es, m, |names|);
  }

  lemma PieceAround(es: seq<Element>, m: nat, n: nat)
    requires m < |es| && PieceOk(es[..m], n) && es[m] == Alt && PieceOk(es[m + 1..], n)
    ensures PieceOk(es, n)
  {
    PieceAppend(es[..m], [Alt], n);
    PieceAppend(es[..m] + [Alt], es[m + 1..], n);
    assert es == es[..m] + [Alt] + es[m + 1..];
  }

  lemma BodyRuleOk(ids: Symbols, names: seq<string>, rules: Rules, es: seq<Element>, a: Alternates)
    requires LowersAlternates(ids, rules, es, a) && SymbolsOk(ids, names)
    ensures RuleOk(es + [End], |names|)
  {
    AlternatesPiece(ids, names, rules, es, a);
    AlternatesEndFree(ids, rules, es, a);
    PieceAppend(es, [End], |names|);
  }

  lemma {:induction false} RepeatRuleOk(op: RepeatOp, inner: seq<Element>, id: nat, n: nat)
    requires PieceOk(inner, n) && NoBoundary(inner) && id < n
    ensures RuleOk(RepeatRule(op, inner, id), n)
  {
    var x := if op == Optional then inner else inner + [RuleRef(id)];
    var y := if op == Plus then inner else [];
    PieceAppend(inner, [RuleRef(id)], n);
    PieceAppend(x, [Alt], n);
    PieceAppend(x + [Alt], y, n);
    PieceAppend(x + [Alt] + y, [End], n);
    assert RepeatRule(op, inner, id) == x + [Alt] + y + [End];
    assert NoBoundary(x);
  }

  // ----- growing a sequence -----

  lemma {:induction false} AppendItem(ids: Symbols, rules: Rules, es: seq<Element>, acc: Sequence, tail: seq<Element>,
                                      item: Item)
    requires LowersSequence(ids, rules, es, acc) && LowersItem(ids, rules, tail, item)
    ensures LowersSequence(ids, rules, es + tail, Then(acc, item))
  {
    SequenceShape(ids, rules, es, acc);
    ItemShape(ids, rules, tail, item);
    assert (es + tail)[..|es|] == es && (es + tail)[|es|..] == tail;
  }

  lemma RepeatableWidth(acc: Sequence)
    requires acc.Then?
    ensures Repeatable(acc) <==> Width(acc.last) > 0
  {
  }

  lemma {:induction false} LiteralSnoc(chars: seq<nat>, c: nat)
    ensures LiteralElements(chars + [c]) == LiteralElements(chars) + [Char(c)]
  {
    if chars != [] {
      assert (chars + [c])[1..] == chars[1..] + [c];
      LiteralSnoc(chars[1..], c);
    }
  }

  lemma {:induction false} AltSnoc(items: seq<ClassItem>, item: ClassItem)
    ensures AltElements(items + [item]) == AltElements(items) + [CharAlt(LowerOf(item))] + UpperOf(item)
  {
    if items == [] {
      assert AltElements([]) == [];
      assert [item][1..] == [];
      assert AltElements([item]) == [CharAlt(LowerOf(item))] + UpperOf(item) + [];
    } else {
      assert (items + [item])[1..] == items[1..] + [item];
      AltSnoc(items[1..], item);
    }
  }

  function ClassMark(first: bool, negated: bool, c: nat): Element {
    if !first then CharAlt(c) else if negated then CharNot(c) else Char(c)
  }

  lemma {:induction false} ClassSnoc(negated: bool, items: seq<ClassItem>, item: ClassItem)
    ensures ClassElements(negated, items + [item]) ==
            ClassElements(negated, items)
            + [ClassMark(items == [], negated, LowerOf(item))]
            + UpperOf(item)
  {
    if items == [] {
      assert [item][1..] == [];
    } else {
      assert (items + [item])[1..] == items[1..] + [item];
      AltSnoc(items[1..], item);
    }
  }

  // ----- the parts of a sequence that leave the tables alone -----

  method ParseLiteral(s: Text, src: nat, elements: seq<Element>) returns (r: Result<nat>, out: seq<Element>)
    requires src <= |s|
    ensures match LiteralFrom(s, src, [])
            case Ok((chars, q)) => r == Ok(q) && out == elements + LiteralElements(chars)
            case Err(e) => r == Err(e)
  {
    out := elements;
    var pos := src;
    ghost var chars := [];
    while At(s, pos) != '"'
      invariant pos <= |s|
      invariant LiteralFrom(s, src, []) == LiteralFrom(s, pos, chars)
      invariant out == elements + LiteralElements(chars)
      decreases |s| - pos
    {
      var c := ParseChar(s, pos);
      if c.Err? { return Err(c.error), out; }
      pos := c.value.1;
      out := out + [Char(c.value.0)];
      LiteralSnoc(chars, c.value.0);
      chars := chars + [c.value.0];
    }
    r := Ok(pos);
  }

  // One turn of the class loop: a character or a range, `mark` being its first element's type.
  method ParseClassItem(s: Text, src: nat, first: bool, negated: bool, elements: seq<Element>)
    returns (r: Result<nat>, out: seq<Element>)
    requires src <= |s|
    ensures match ClassItemFrom(s, src)
            case Ok((item, q)) =>
              r == Ok(q) && out == elements + [ClassMark(first, negated, LowerOf(item))] + UpperOf(item)
            case Err(e) => r == Err(e)
  {
    out := elements;
    var c := ParseChar(s, src);
    if c.Err? { return Err(c.error), out; }
    var pos := c.value.1;
    out := out + [ClassMark(first, negated, c.value.0)];
    if At(s, pos) == '-' && At(s, pos + 1) != ']' {
      var d := ParseChar(s, pos + 1);
      if d.Err? { return Err(d.error), out; }
      pos := d.value.1;
      out := out + [RngUpper(d.value.0)];
    }
    r := Ok(pos);
  }

  lemma {:induction false} ClassMore(elements: seq<Element>, negated: bool, items: seq<ClassItem>, item: ClassItem)
    ensures var mark := ClassMark(items == [], negated, LowerOf(item));
      elements + ClassElements(negated, items) + [mark] + UpperOf(item) ==
        elements + ClassElements(negated, items + [item])
    ensures |ClassElements(negated, items)| == 0 <==> items == []
  {
    ClassSnoc(negated, items, item);
    var a, b, c := ClassElements(negated, items), [ClassMark(items == [], negated, LowerOf(item))], UpperOf(item);
    assert elements + a + b + c == elements + (a + b + c);
  }

  lemma {:induction false} ClassFromStep(s: Text, p: nat, items: seq<ClassItem>)
    requires p <= |s| && At(s, p) != ']'
    ensures var r := ClassItemFrom(s, p);
      ClassFrom(s, p, items) == if r.Ok? then ClassFrom(s, r.value.1, items + [r.value.0]) else Err(r.error)
  {
  }

  method ParseClass(s: Text, src: nat, negated: bool, elements: seq<Element>)
    returns (r: Result<nat>, out: seq<Element>)
    requires src <= |s|
    ensures match ClassFrom(s, src, [])
            case Ok((items, q)) => r == Ok(q) && out == elements + ClassElements(negated, items)
            case Err(e) => r == Err(e)
  {
    out := elements;
    var pos := src;
    var lastSymStart := |out|;
    ghost var items := [];
    while At(s, pos) != ']'
      invariant pos <= |s|
      invariant ClassFrom(s, src, []) == ClassFrom(s, pos, items)
      invariant out == elements + ClassElements(negated, items)
      decreases |s| - pos
    {
      ClassFromStep(s, pos, items);
      r, out := ParseClassItem(s, pos, lastSymStart == |out|, negated, out);
      if r.Err? { return; }
      ghost var item := ClassItemFrom(s, pos).value.0;
      pos := r.value;
      ClassMore(elements, negated, items, item);
      items := items + [item];
    }
    r := Ok(pos);
  }

  lemma {:induction false} ClassAtIs(s: Text, p: nat, src: nat, negated: bool, nested: bool)
    requires p < |s| && src == ClassStart(s, p) && negated == (At(s, p + 1) == '^')
    ensures var r := ClassFrom(s, src, []);
      ClassAt(s, p, nested) == if r.Ok? then Ok((Class(negated, r.value.0), SpaceEnd(s, r.value.1 + 1, nested)))
        else Err(r.error)
  {
  }

  method CloseGroup(s: Text, pos: nat, nested: bool) returns (r: Result<nat>)
    requires pos <= |s|
    ensures r == GroupEnd(s, pos, nested)
  {
    if At(s, pos) != ')' {
      return Err(ExpectingClose);
    }
    var next := ParseSpace(s, pos + 1, nested);
    r := Ok(next);
  }

  method ParseRuleEnd(s: Text, src: nat) returns (r: Result<nat>)
    requires src <= |s|
    ensures r == RuleEnd(s, src)
  {
    var pos := src;
    if At(s, pos) == '\r' {
      pos := pos + if At(s, pos + 1) == '\n' then 2 else 1;
    } else if At(s, pos) == '\n' {
      pos := pos + 1;
    } else if At(s, pos) != 0 as char {
      return Err(ExpectingNewline);
    }
    var next := ParseSpace(s, pos, true);
    r := Ok(next);
  }

  method RepeatElements(c: char, inner: seq<Element>, id: nat) returns (rule: seq<Element>)
    requires IsRepeatChar(c)
    ensures rule == RepeatRule(RepeatOpOf(c), inner, id)
  {
    rule := inner;
    if c == '*' || c == '+' {
      rule := rule + [RuleRef(id)];
    }
    rule := rule + [Alt];
    if c == '+' {
      rule := rule + inner;
    }
    rule := rule + [End];
  }

  class ParseState {
    var symbolIds: Symbols
    var rules: Rules
    ghost var names: seq<string>

    ghost predicate Valid()
      reads this
    {
      SymbolsOk(symbolIds, names) && RulesOk(rules, |names|)
    }

    constructor ()
      ensures Valid() && symbolIds == map[] && rules == [] && names == []
    {
      symbolIds, rules, names := map[], [], [];
    }

    method GetSymbolId(name: string) returns (id: nat)
      requires Valid() && IsUserName(name)
      modifies this
      ensures Valid() && name in symbolIds && symbolIds[name] == id
      ensures rules == old(rules)
      ensures names == if name in old(symbolIds) then old(names) else old(names) + [name]
    {
      var next := |symbolIds|;
      if name !in symbolIds {
        symbolIds := symbolIds[name := next];
        names := names + [name];
      }
      id := symbolIds[name];
    }

    method GenerateSymbolId(baseName: string) returns (id: nat)
      requires Valid() && IsUserName(baseName)
      modifies this
      ensures Valid() && rules == old(rules)
      ensures id == |old(names)| && names == old(names) + [GeneratedName(baseName, id)]
      ensures Synthesized(symbolIds, id)
    {
      FreshGenerated(symbolIds, names, baseName);
      id := |symbolIds|;
      symbolIds := symbolIds[GeneratedName(baseName, id) := id];
      names := names + [GeneratedName(baseName, id)];
    }

    method AddRule(id: nat, rule: seq<Element>)
      requires Valid() && id < |names| && RuleOk(rule, |names|)
      modifies this`rules
      ensures Valid() && RuleAt(rules, id) == rule
      ensures Grown(names, old(rules), names, rules, id)
    {
      if |rules| <= id {
        rules := rules + seq(id + 1 - |rules|, _ => []);
      }
      rules := rules[id := rule];
    }

    // ----- one turn of the loop in ParseSequence -----

    /** The elements after `head` are the items read so far, and `last` is where the
        elements of the last item begin. */
    ghost predicate Reading(head: seq<Element>, out: seq<Element>, last: nat, acc: Sequence)
      reads this
    {
      && head <= out
      && LowersSequence(symbolIds, rules, out[|head|..], acc)
      && NamesOkSequence(acc)
      && last == if acc.Then? then |head| + SequenceWidth(acc.init) else |head|
    }

    /** Adding an item's elements at the end, possibly after the tables have grown. */
    lemma {:induction false} Extend(ids: Symbols, oldNames: seq<string>, oldRules: Rules, head: seq<Element>,
                                    out: seq<Element>, acc: Sequence, tail: seq<Element>, item: Item)
      requires Valid() && SymbolsOk(ids, oldNames) && Grown(oldNames, oldRules, names, rules, -1)
      requires head <= out && LowersSequence(ids, oldRules, out[|head|..], acc) && NamesOkSequence(acc)
      requires NamesOkItem(item) && LowersItem(symbolIds, rules, tail, item)
      ensures Reading(head, out + tail, |out|, Then(acc, item))
    {
      GrownIsStable(ids, oldNames, oldRules, symbolIds, names, rules, -1);
      SequenceStable(ids, oldRules, symbolIds, rules, out[|head|..], acc);
      SequenceShape(symbolIds, rules, out[|head|..], acc);
      AppendItem(symbolIds, rules, out[|head|..], acc, tail, item);
      assert (out + tail)[|head|..] == out[|head|..] + tail;
    }

    method LiteralTurn(s: Text, pos: nat, nested: bool, elements: seq<Element>, ghost head: seq<Element>,
                       ghost last: nat, ghost acc: Sequence)
      returns (r: Result<nat>, out: seq<Element>)
      requires Valid() && Reading(head, elements, last, acc) && pos < |s|
      ensures match LiteralItem(s, pos, nested)
              case Ok((item, q)) => r == Ok(q) && Reading(head, out, |elements|, Then(acc, item))
              case Err(e) => r == Err(e)
    {
      r, out := ParseLiteral(s, pos + 1, elements);
      if r.Ok? {
        ghost var chars := LiteralFrom(s, pos + 1, []).value.0;
        Extend(symbolIds, names, rules, head, elements, acc, LiteralElements(chars), Literal(chars));
        var next := ParseSpace(s, r.value + 1, nested);
        r := Ok(next);
      }
    }

    method ClassTurn(s: Text, pos: nat, nested: bool, elements: seq<Element>, ghost head: seq<Element>,
                     ghost last: nat, ghost acc: Sequence)
      returns (r: Result<nat>, out: seq<Element>)
      requires Valid() && Reading(head, elements, last, acc) && pos < |s|
      ensures match ClassAt(s, pos, nested)
              case Ok((item, q)) => r == Ok(q) && Reading(head, out, |elements|, Then(acc, item))
              case Err(e) => r == Err(e)
    {
      var negated := At(s, pos + 1) == '^';
      var src := ClassStart(s, pos);
      ClassAtIs(s, pos, src, negated, nested);
      r, out := ParseClass(s, src, negated, elements);
      if r.Ok? {
        ghost var items := ClassFrom(s, src, []).value.0;
        Extend(symbolIds, names, rules, head, elements, acc, ClassElements(negated, items), Class(negated, items));
        var next := ParseSpace(s, r.value + 1, nested);
        r := Ok(next);
      }
    }

    method ReferenceTurn(s: Text, pos: nat, nested: bool, elements: seq<Element>, ghost head: seq<Element>,
                         ghost last: nat, ghost acc: Sequence)
      returns (next: nat, out: seq<Element>)
      requires Valid() && Reading(head, elements, last, acc) && pos < |s| && IsWordChar(s[pos])
      modifies this
      ensures Valid() && Grown(old(names), old(rules), names, rules, -1)
      ensures var (item, q) := ReferenceItem(s, pos, nested);
              next == q && Reading(head, out, |elements|, Then(acc, item))
    {
      var end := ParseName(s, pos);
      var name: string := s[pos..end.value];
      NameIsWord(s, pos);
      WordsAreUserNames(name);
      ghost var ids := symbolIds;
      var id := GetSymbolId(name);
      next := ParseSpace(s, end.value, nested);
      out := elements + [RuleRef(id)];
      Extend(ids, old(names), old(rules), head, elements, acc, [RuleRef(id)], Reference(name));
    }

    /** Adds the rule of a repetition and gives its symbol. */
    method AddRepeatRule(c: char, ruleName: string, inner: seq<Element>, ghost operand: Item) returns (id: nat)
      requires Valid() && IsUserName(ruleName) && IsRepeatChar(c)
      requires inner != [] && LowersItem(symbolIds, rules, inner, operand)
      modifies this
      ensures Valid() && Grown(old(names), old(rules), names, rules, -1)
      ensures LowersItem(symbolIds, rules, [RuleRef(id)], Repeat(RepeatOpOf(c), operand))
    {
      ghost var ids, names0, rules0 := symbolIds, names, rules;
      OperandOk(ids, names0, rules0, inner, operand);
      id := GenerateSymbolId(ruleName);
      FillRepeatRule(c, inner, id);
      RepeatAdded(ids, names0, rules0, symbolIds, names, rules, ruleName, id, RepeatOpOf(c), inner, operand);
    }

    method FillRepeatRule(c: char, inner: seq<Element>, id: nat)
      requires Valid() && IsRepeatChar(c) && id < |names| && NoBoundary(inner) && PieceOk(inner, id)
      modifies this`rules
      ensures Valid() && RuleAt(rules, id) == RepeatRule(RepeatOpOf(c), inner, id)
      ensures Grown(names, old(rules), names, rules, id)
    {
      var subRule := RepeatElements(c, inner, id);
      RepeatRuleOk(RepeatOpOf(c), inner, id, |names|);
      AddRule(id, subRule);
    }

    method RepeatTurn(s: Text, pos: nat, ruleName: string, nested: bool, elements: seq<Element>, last: nat,
                      ghost head: seq<Element>, ghost acc: Sequence)
      returns (r: Result<nat>, out: seq<Element>)
      requires Valid() && Reading(head, elements, last, acc) && IsUserName(ruleName)
      requires pos < |s| && IsRepeatChar(s[pos])
      modifies this
      ensures Valid() && Grown(old(names), old(rules), names, rules, -1)
      ensures match RepeatFrom(s, pos, nested, acc)
              case Ok((acc', q)) => r == Ok(q) && Reading(head, out, last, acc')
              case Err(e) => r == Err(e)
    {
      out := elements;
      LastItem(symbolIds, rules, head, elements, last, acc);
      if last == |elements| {
        return Err(ExpectingItem), out;
      }
      ghost var ids := symbolIds;
      var id := AddRepeatRule(s[pos], ruleName, elements[last..], acc.last);
      out := elements[..last] + [RuleRef(id)];
      Extend(ids, old(names), old(rules), head, elements[..last], acc.init, [RuleRef(id)],
             Repeat(RepeatOpOf(s[pos]), acc.last));
      var next := ParseSpace(s, pos + 1, nested);
      r := Ok(next);
    }

    /** Parses the alternates of a group into a rule of its own. */
    method ParseGroup(s: Text, src: nat, ruleName: string) returns (r: Result<nat>, id: nat)
      requires Valid() && src <= |s| && IsUserName(ruleName)
      modifies this
      ensures Valid() && Grown(old(names), old(rules), names, rules, -1)
      ensures match AlternatesFrom(s, src, true)
              case Ok((body, q)) =>
                r == Ok(q) && NamesOk(body) && LowersItem(symbolIds, rules, [RuleRef(id)], Group(body))
              case Err(e) => r == Err(e)
      decreases |s| - src, 6
    {
      id := GenerateSymbolId(ruleName);
      ghost var ids, names1, rules1 := symbolIds, names, rules;
      r := ParseAlternates(s, src, ruleName, id, true);
      GrownIsStable(ids, names1, rules1, symbolIds, names, rules, id);
    }

    method ParseClosedGroup(s: Text, pos: nat, ruleName: string, nested: bool) returns (r: Result<nat>, id: nat)
      requires Valid() && IsUserName(ruleName) && pos < |s|
      modifies this
      ensures Valid() && Grown(old(names), old(rules), names, rules, -1)
      ensures match GroupItem(s, pos, nested)
              case Ok((item, q)) => r == Ok(q) && NamesOkItem(item) && LowersItem(symbolIds, rules, [RuleRef(id)], item)
              case Err(e) => r == Err(e)
      decreases |s| - pos, 0, 0
    {
      var p := ParseSpace(s, pos + 1, true);
      r, id := ParseGroup(s, p, ruleName);
      if r.Ok? {
        r := CloseGroup(s, r.value, nested);
      }
    }

    method GroupTurn(s: Text, pos: nat, ruleName: string, nested: bool, elements: seq<Element>,
                     ghost head: seq<Element>, ghost last: nat, ghost acc: Sequence)
      returns (r: Result<nat>, out: seq<Element>)
      requires Valid() && Reading(head, elements, last, acc) && IsUserName(ruleName) && pos < |s|
      modifies this
      ensures Valid() && Grown(old(names), old(rules), names, rules, -1)
      ensures match GroupItem(s, pos, nested)
              case Ok((item, q)) => r == Ok(q) && Reading(head, out, |elements|, Then(acc, item))
              case Err(e) => r == Err(e)
      decreases |s| - pos, 0, 1
    {
      ghost var ids, names0, rules0 := symbolIds, names, rules;
      var id;
      r, id := ParseClosedGroup(s, pos, ruleName, nested);
      out := elements + [RuleRef(id)];
      if r.Ok? {
        Extend(ids, names0, rules0, head, elements, acc, [RuleRef(id)], GroupItem(s, pos, nested).value.0);
      }
    }

    method ItemTurn(s: Text, pos: nat, ruleName: string, nested: bool, elements: seq<Element>,
                    ghost head: seq<Element>, ghost last: nat, ghost acc: Sequence)
      returns (r: Result<nat>, out: seq<Element>)
      requires Valid() && Reading(head, elements, last, acc) && IsUserName(ruleName) && pos < |s| && StartsItem(s[pos])
      modifies this
      ensures Valid() && Grown(old(names), old(rules), names, rules, -1)
      ensures match ItemFrom(s, pos, nested)
              case Ok((item, q)) => r == Ok(q) && Reading(head, out, |elements|, Then(acc, item))
              case Err(e) => r == Err(e)
      decreases |s| - pos, 1
    {
      if s[pos] == '"' {
        r, out := LiteralTurn(s, pos, nested, elements, head, last, acc);
      } else if s[pos] == '[' {
        r, out := ClassTurn(s, pos, nested, elements, head, last, acc);
      } else if IsWordChar(s[pos]) {
        var next;
        next, out := ReferenceTurn(s, pos, nested, elements, head, last, acc);
        r := Ok(next);
      } else {
        r, out := GroupTurn(s, pos, ruleName, nested, elements, head, last, acc);
      }
    }

    method Turn(s: Text, pos: nat, ruleName: string, nested: bool, elements: seq<Element>, last: nat,
                ghost head: seq<Element>, ghost acc: Sequence)
      returns (r: Result<nat>, out: seq<Element>, last': nat)
      requires Valid() && Reading(head, elements, last, acc) && IsUserName(ruleName) && pos < |s| && StartsTurn(s[pos])
      modifies this
      ensures Valid() && Grown(old(names), old(rules), names, rules, -1)
      ensures match TurnFrom(s, pos, nested, acc)
              case Ok((acc', q)) => r == Ok(q) && Reading(head, out, last', acc')
              case Err(e) => r == Err(e)
      decreases |s| - pos, 2
    {
      if IsRepeatChar(s[pos]) {
        last' := last;
        r, out := RepeatTurn(s, pos, ruleName, nested, elements, last, head, acc);
      } else {
        last' := |elements|;
        r, out := ItemTurn(s, pos, ruleName, nested, elements, head, last, acc);
      }
    }

    /** Parses a sequence into elements appended to `elements`. */
    method ParseSequence(s: Text, src: nat, ruleName: string, elements: seq<Element>, nested: bool)
      returns (r: Result<nat>, out: seq<Element>)
      requires Valid() && src <= |s| && IsUserName(ruleName)
      modifies this
      ensures Valid() && Grown(old(names), old(rules), names, rules, -1)
      ensures match SequenceFrom(s, src, nested, Empty)
              case Ok((items, q)) =>
                && r == Ok(q) && elements <= out && NamesOkSequence(items)
                && LowersSequence(symbolIds, rules, out[|elements|..], items)
              case Err(e) => r == Err(e)
      decreases |s| - src, 3
    {
      out := elements;
      var lastSymStart: nat, pos := |out|, src;
      ghost var acc := Empty;
      while At(s, pos) != 0 as char
        invariant src <= pos <= |s| && Valid() && Grown(old(names), old(rules), names, rules, -1)
        invariant Reading(elements, out, lastSymStart, acc)
        invariant SequenceFrom(s, src, nested, Empty) == SequenceFrom(s, pos, nested, acc)
        decreases |s| - pos
      {
        if !StartsTurn(s[pos]) { break; }
        ghost var acc0 := acc;
        r, out, lastSymStart := Turn(s, pos, ruleName, nested, out, lastSymStart, elements, acc);
        if r.Err? { return; }
        acc := TurnFrom(s, pos, nested, acc0).value.0;
        pos := r.value;
      }
      r := Ok(pos);
    }

    /** One more alternate after a bar. */
    method AlternateTurn(s: Text, src: nat, ruleName: string, rule: seq<Element>, nested: bool, ghost acc: Alternates)
      returns (r: Result<nat>, out: seq<Element>)
      requires Valid() && src < |s| && IsUserName(ruleName)
      requires LowersAlternates(symbolIds, rules, rule, acc) && NamesOk(acc)
      modifies this
      ensures Valid() && Grown(old(names), old(rules), names, rules, -1)
      ensures match SequenceFrom(s, SpaceEnd(s, src + 1, true), nested, Empty)
              case Ok((back, q)) =>
                r == Ok(q) && LowersAlternates(symbolIds, rules, out, Or(acc, back)) && NamesOk(Or(acc, back))
              case Err(e) => r == Err(e)
      decreases |s| - src, 0
    {
      ghost var ids, names0, rules0 := symbolIds, names, rules;
      var pos := ParseSpace(s, src + 1, true);
      r, out := ParseSequence(s, pos, ruleName, rule + [Alt], nested);
      if r.Err? { return; }
      ghost var back := SequenceFrom(s, pos, nested, Empty).value.0;
      GrownIsStable(ids, names0, rules0, symbolIds, names, rules, -1);
      AlternatesStable(ids, rules0, symbolIds, rules, rule, acc);
      AppendAlternate(symbolIds, rules, rule, acc, out, back);
    }

    method FinishRule(ruleId: nat, rule: seq<Element>, ghost body: Alternates)
      requires Valid() && ruleId < |names| && LowersAlternates(symbolIds, rules, rule, body)
      requires IsUserName(names[ruleId]) || RuleAt(rules, ruleId) == []
      modifies this`rules
      ensures Valid() && Grown(names, old(rules), names, rules, ruleId)
      ensures ruleId < |rules| && LowersBody(symbolIds, rules, rules[ruleId], body)
    {
      BodyRuleOk(symbolIds, names, rules, rule, body);
      AddRule(ruleId, rule + [End]);
      GrownIsStable(symbolIds, names, old(rules), symbolIds, names, rules, ruleId);
      AlternatesStable(symbolIds, old(rules), symbolIds, rules, rule, body);
      assert (rule + [End])[..|rule|] == rule;
    }

    /** Parses alternates into the rule of symbol `ruleId`. */
    method ParseAlternates(s: Text, src: nat, ruleName: string, ruleId: nat, nested: bool) returns (r: Result<nat>)
      requires Valid() && src <= |s| && IsUserName(ruleName) && ruleId < |names|
      requires IsUserName(names[ruleId]) || RuleAt(rules, ruleId) == []
      modifies this
      ensures Valid() && Grown(old(names), old(rules), names, rules, ruleId)
      ensures match AlternatesFrom(s, src, nested)
              case Ok((body, q)) =>
                && r == Ok(q) && NamesOk(body) && ruleId < |rules| && LowersBody(symbolIds, rules, rules[ruleId], body)
              case Err(e) => r == Err(e) && RuleAt(rules, ruleId) == old(RuleAt(rules, ruleId))
      decreases |s| - src, 5
    {
      var rule;
      r, rule := ReadAlternates(s, src, ruleName, nested);
      if r.Ok? { FinishRule(ruleId, rule, AlternatesFrom(s, src, nested).value.0); }
    }

    /** Parses one rule definition of the grammar text. */
    method ParseRule(s: Text, src: nat, ghost g: Grammar) returns (r: Result<nat>)
      requires Valid() && src <= |s| && LowersGrammar(symbolIds, rules, g)
      modifies this
      ensures Valid()
      ensures match RuleFrom(s, src)
              case Ok((name, body, q)) => r == Ok(q) && LowersGrammar(symbolIds, rules, g[name := body])
              case Err(e) => r == Err(e)
    {
      r := ParseName(s, src);
      if r.Err? { return; }
      var nameEnd := r.value;
      var pos := ParseSpace(s, nameEnd, false);
      var name: string := s[src..nameEnd];
      NameIsWord(s, src);
      WordsAreUserNames(name);
      var id := DeclareRule(name, g);
      r := ParseDefinition(s, pos, name, id, g);
    }

    method DeclareRule(name: string, ghost g: Grammar) returns (id: nat)
      requires Valid() && IsUserName(name) && LowersGrammar(symbolIds, rules, g)
      modifies this
      ensures Valid() && name in symbolIds && symbolIds[name] == id
      ensures OthersLowered(symbolIds, rules, g, name)
    {
      ghost var ids, names0, rules0 := symbolIds, names, rules;
      assert OthersLowered(ids, rules, g, name);
      id := GetSymbolId(name);
      RulesKept(ids, names0, rules0, symbolIds, names, rules, g, name);
    }

    method ParseDefinition(s: Text, src: nat, name: string, id: nat, ghost g: Grammar) returns (r: Result<nat>)
      requires Valid() && src <= |s| && IsUserName(name) && name in symbolIds && id == symbolIds[name]
      requires OthersLowered(symbolIds, rules, g, name)
      modifies this
      ensures Valid()
      ensures match DefinitionFrom(s, src)
              case Ok((body, q)) => r == Ok(q) && LowersGrammar(symbolIds, rules, g[name := body])
              case Err(e) => r == Err(e)
    {
      if !DefinitionAt(s, src) {
        return Err(ExpectingDefinition);
      }
      var pos := ParseSpace(s, src + 3, true);
      r := ParseRuleBody(s, pos, name, id, g);
      if r.Ok? {
        r := ParseRuleEnd(s, r.value);
      }
    }

    method ParseRuleBody(s: Text, src: nat, name: string, id: nat, ghost g: Grammar) returns (r: Result<nat>)
      requires Valid() && src <= |s| && IsUserName(name) && name in symbolIds && id == symbolIds[name]
      requires OthersLowered(symbolIds, rules, g, name)
      modifies this
      ensures Valid()
      ensures match AlternatesFrom(s, src, false)
              case Ok((body, q)) => r == Ok(q) && LowersGrammar(symbolIds, rules, g[name := body])
              case Err(e) => r == Err(e)
    {
      ghost var ids, names0, rules0 := symbolIds, names, rules;
      r := ParseAlternates(s, src, name, id, false);
      if r.Ok? {
        RulesKept(ids, names0, rules0, symbolIds, names, rules, g, name);
        SymbolsKept(ids, names0, symbolIds, names, name);
        DefineRule(symbolIds, rules, g, name, AlternatesFrom(s, src, false).value.0);
      }
    }

    // The loop over bars, which leaves older rules alone.
    method ReadAlternates(s: Text, src: nat, ruleName: string, nested: bool)
      returns (r: Result<nat>, rule: seq<Element>)
      requires Valid() && src <= |s| && IsUserName(ruleName)
      modifies this
      ensures Valid() && Grown(old(names), old(rules), names, rules, -1)
      ensures match AlternatesFrom(s, src, nested)
              case Ok((body, q)) => r == Ok(q) && NamesOk(body) && LowersAlternates(symbolIds, rules, rule, body)
              case Err(e) => r == Err(e)
      decreases |s| - src, 4
    {
      r, rule := ParseSequence(s, src, ruleName, [], nested);
      if r.Err? { return; }
      var pos := r.value;
      ghost var acc := Single(SequenceFrom(s, src, nested, Empty).value.0);
      assert rule[0..] == rule;
      while At(s, pos) == '|'
        invariant src <= pos <= |s| && Valid() && Grown(old(names), old(rules), names, rules, -1)
        invariant LowersAlternates(symbolIds, rules, rule, acc) && NamesOk(acc)
        invariant AlternatesFrom(s, src, nested) == AlternatesTail(s, pos, nested, acc)
        decreases |s| - pos
      {
        r, rule := AlternateTurn(s, pos, ruleName, rule, nested, acc);
        if r.Err? { return; }
        acc := Or(acc, SequenceFrom(s, SpaceEnd(s, pos + 1, true), nested, Empty).value.0);
        pos := r.value;
      }
      r := Ok(pos);
    }
  }

  /** The grammar is lowered, leaving the rule of `name` aside. */
  predicate OthersLowered(ids: Symbols, rules: Rules, g: Grammar, name: string) {
    && (forall n :: n in g && n != name ==> LowersRule(ids, rules, n, g[n]))
    && (forall n :: n in ids && IsUserName(n) && n !in g && n != name ==> RuleAt(rules, ids[n]) == [])
  }

  lemma RuleStable(ids: Symbols, rules: Rules, ids': Symbols, rules': Rules, name: string, a: Alternates)
    requires LowersRule(ids, rules, name, a) && Stable(ids, rules, ids', rules')
    requires RuleAt(rules', ids[name]) == RuleAt(rules, ids[name])
    ensures LowersRule(ids', rules', name, a)
  {
    var rule := RuleAt(rules, ids[name]);
    AlternatesStable(ids, rules, ids', rules', rule[..|rule| - 1], a);
  }

  lemma SymbolsKept(ids: Symbols, names: seq<string>, ids': Symbols, names': seq<string>, n: string)
    requires SymbolsOk(ids, names) && SymbolsOk(ids', names') && names <= names' && n in ids'
    ensures n in ids <==> ids'[n] < |names|
    ensures n in ids ==> ids'[n] == ids[n]
    ensures names'[ids'[n]] == n
  {
    if n in ids { assert names'[ids[n]] == names[ids[n]]; }
  }

  /** Growing the tables keeps a grammar lowered, except for the rule being defined. */
  lemma RulesKept(ids: Symbols, names: seq<string>, rules: Rules, ids': Symbols, names': seq<string>, rules': Rules,
                  g: Grammar, name: string)
    requires SymbolsOk(ids, names) && SymbolsOk(ids', names') && IsUserName(name)
    requires OthersLowered(ids, rules, g, name)
    requires Grown(names, rules, names', rules', if name in ids then ids[name] else -1)
    ensures OthersLowered(ids', rules', g, name)
  {
    var except := if name in ids then ids[name] else -1;
    assert 0 <= except ==> names[except] == name;
    GrownIsStable(ids, names, rules, ids', names', rules', except);
    forall n | n in g && n != name ensures LowersRule(ids', rules', n, g[n]) {
      SymbolsKept(ids, names, ids', names', n);
      RuleStable(ids, rules, ids', rules', n, g[n]);
    }
    forall n | n in ids' && IsUserName(n) && n !in g && n != name ensures RuleAt(rules', ids'[n]) == [] {
      SymbolsKept(ids, names, ids', names', n);
    }
  }

  lemma DefineRule(ids: Symbols, rules: Rules, g: Grammar, name: string, body: Alternates)
    requires OthersLowered(ids, rules, g, name) && LowersRule(ids, rules, name, body)
    ensures LowersGrammar(ids, rules, g[name := body])
  {
  }

  /** Compiles a grammar text.  A text with an error gives the empty tables; any other text
      gives rules whose languages are those of its extended BNF, rule by rule, classes that
      list nothing reading as nothing. */
  method Parse(s: Text) returns (state: ParseState)
    ensures fresh(state) && state.Valid()
    ensures match GrammarOf(s)
            case Ok(g) => CompiledTo(state.symbolIds, state.rules, g)
            case Err(_) => state.symbolIds == map[] && state.rules == []
  {
    state := new ParseState();
    var ok;
    ghost var g;
    ok, g := ParseRules(s, state);
    if ok {
      LanguagesAgree(state.symbolIds, state.rules, g);
    } else {
      state := new ParseState();
    }
  }

  method ParseRules(s: Text, state: ParseState) returns (ok: bool, ghost g: Grammar)
    requires state.Valid() && LowersGrammar(state.symbolIds, state.rules, map[])
    modifies state
    ensures state.Valid()
    ensures if ok then GrammarOf(s) == Ok(g) && LowersGrammar(state.symbolIds, state.rules, g) else GrammarOf(s).Err?
  {
    g := map[];
    var pos := ParseSpace(s, 0, true);
    while At(s, pos) != 0 as char
      invariant pos <= |s| && state.Valid() && LowersGrammar(state.symbolIds, state.rules, g)
      invariant GrammarOf(s) == RulesFrom(s, pos, g)
      decreases |s| - pos
    {
      var r := state.ParseRule(s, pos, g);
      if r.Err? { return false, g; }
      g := g[RuleFrom(s, pos).value.0 := RuleFrom(s, pos).value.1];
      pos := r.value;
    }
    ok := true;
  }

  ghost predicate SameLanguages(ids: Symbols, rules: Rules, g: Grammar) {
    forall name, w :: name in ids && IsUserName(name) ==>
                        (InSourceLanguage(g, name, w) <==> InFlatLanguage(rules, ids[name], w))
  }

  /** The tables are a lowering of the grammar and have its languages. */
  ghost predicate CompiledTo(ids: Symbols, rules: Rules, g: Grammar) {
    && LowersGrammar(ids, rules, g) && SameLanguages(ids, rules, AsCompiled(g))
    && (ClassesNonEmpty(g) ==> SameLanguages(ids, rules, g))
  }

  lemma LanguagesAgree(ids: Symbols, rules: Rules, g: Grammar)
    requires LowersGrammar(ids, rules, g)
    ensures CompiledTo(ids, rules, g)
  {
    AsCompiledLowered(ids, rules, g);
    forall name, w | name in ids && IsUserName(name)
      ensures InSourceLanguage(AsCompiled(g), name, w) <==> InFlatLanguage(rules, ids[name], w)
    {
      LoweringPreservesLanguage(ids, rules, g, name, w);
    }
  }

  lemma LastItem(ids: Symbols, rules: Rules, head: seq<Element>, out: seq<Element>, last: nat, acc: Sequence)
    requires head <= out && LowersSequence(ids, rules, out[|head|..], acc)
    requires last == if acc.Then? then |head| + SequenceWidth(acc.init) else |head|
    ensures last <= |out| && (last == |out| <==> !Repeatable(acc))
    ensures acc.Then? ==>
              LowersSequence(ids, rules, out[..last][|head|..], acc.init)
                && LowersItem(ids, rules, out[last..], acc.last)
  {
    SequenceShape(ids, rules, out[|head|..], acc);
    if acc.Then? {
      RepeatableWidth(acc);
      var n := |head|;
      assert out[n..][..last - n] == out[..last][n..] && out[n..][last - n..] == out[last..];
    }
  }

  lemma OperandOk(ids: Symbols, names: seq<string>, rules: Rules, inner: seq<Element>, operand: Item)
    requires SymbolsOk(ids, names) && LowersItem(ids, rules, inner, operand)
    ensures NoBoundary(inner) && PieceOk(inner, |names|)
  {
    ItemShape(ids, rules, inner, operand);
    ItemPiece(ids, names, rules, inner, operand);
  }

  lemma RepeatAdded(ids: Symbols, names: seq<string>, rules: Rules, ids': Symbols, names': seq<string>, rules': Rules,
                    base: string, id: nat, op: RepeatOp, inner: seq<Element>, operand: Item)
    requires SymbolsOk(ids, names) && SymbolsOk(ids', names') && IsUserName(base)
    requires id == |names| && names' == names + [GeneratedName(base, id)] && Grown(names', rules, names', rules', id)
    requires inner != [] && LowersItem(ids, rules, inner, operand)
    requires Synthesized(ids', id) && RuleAt(rules', id) == RepeatRule(op, inner, id)
    ensures Grown(names, rules, names', rules', -1) && LowersItem(ids', rules', [RuleRef(id)], Repeat(op, operand))
  {
    GrownByOne(ids, names, rules, names', rules', base, id);
    GrownIsStable(ids, names, rules, ids', names', rules', -1);
    ItemStable(ids, rules, ids', rules', inner, operand);
    RepeatLowered(ids', rules', id, op, inner, operand);
  }

  lemma GrownByOne(ids: Symbols, names: seq<string>, rules: Rules, names': seq<string>, rules': Rules, base: string,
                   id: nat)
    requires SymbolsOk(ids, names) && IsUserName(base)
    requires id == |names| && names' == names + [GeneratedName(base, id)] && Grown(names', rules, names', rules', id)
    ensures Grown(names, rules, names', rules', -1)
  {
    FreshGenerated(ids, names, base);
  }

  lemma {:induction false} RepeatLowered(ids: Symbols, rules: Rules, id: nat, op: RepeatOp, inner: seq<Element>,
                                         operand: Item)
    requires id < |rules| && Synthesized(ids, id) && rules[id] == RepeatRule(op, inner, id)
    requires LowersItem(ids, rules, inner, operand) && inner != []
    ensures LowersItem(ids, rules, [RuleRef(id)], Repeat(op, operand))
  {
    ItemShape(ids, rules, inner, operand);
    assert rules[id][..|inner|] == inner;
  }

  lemma {:induction false} AppendAlternate(ids: Symbols, rules: Rules, es: seq<Element>, acc: Alternates,
                                           all: seq<Element>, back: Sequence)
    requires LowersAlternates(ids, rules, es, acc) && es + [Alt] <= all
    requires LowersSequence(ids, rules, all[|es + [Alt]|..], back)
    ensures LowersAlternates(ids, rules, all, Or(acc, back))
  {
    AlternatesLength(ids, rules, es, acc);
    SequenceShape(ids, rules, all[|es| + 1..], back);
    assert all[..|es|] == es && all[|es|] == Alt;
  }

  lemma {:induction false} AlternatesLength(ids: Symbols, rules: Rules, es: seq<Element>, a: Alternates)
    requires LowersAlternates(ids, rules, es, a)
    ensures |es| == AlternatesWidth(a)
    decreases a
  {
    match a
    case Single(only) => SequenceShape(ids, rules, es, only);
    case Or(front, back) => SequenceShape(ids, rules, es[AlternatesWidth(front) + 1..], back);
  }

  // ----- a class that lists nothing -----

  const EMPTY_CLASS_TEXT: Text := ['r', 'o', 'o', 't', ' ', ':', ':', '=', ' ', '[', ']']

  function EmptyClassGrammar(): Grammar {
    map["root" := Single(Then(Empty, Class(false, [])))]
  }

  lemma {:induction false} EmptyClassRead()
    ensures GrammarOf(EMPTY_CLASS_TEXT) == Ok(EmptyClassGrammar())
  {
    var s := EMPTY_CLASS_TEXT;
    var items := Then(Empty, Class(false, []));
    EmptyClassBody(s, items);
    EmptyClassName(s);
    assert DefinitionFrom(s, 5) == Ok((Single(items), 11));
    assert RuleFrom(s, 0) == Ok(("root", Single(items), 11));
    assert RulesFrom(s, 11, map["root" := Single(items)]) == Ok(map["root" := Single(items)]);
  }

  lemma {:induction false} EmptyClassName(s: Text)
    requires s == EMPTY_CLASS_TEXT
    ensures NameEnd(s, 0) == 4 && SpaceEnd(s, 0, true) == 0 && SpaceEnd(s, 4, false) == 5 && SpaceEnd(s, 8, true) == 9
    ensures RuleEnd(s, 11) == Ok(11)
    ensures s[0..4] == "root"
  {
    assert NameEnd(s, 4) == 4 && NameEnd(s, 3) == 4 && NameEnd(s, 2) == 4 && NameEnd(s, 1) == 4;
  }

  lemma EmptyClassBody(s: Text, items: Sequence)
    requires s == EMPTY_CLASS_TEXT && items == Then(Empty, Class(false, []))
    ensures AlternatesFrom(s, 9, false) == Ok((Single(items), 11))
  {
    assert ClassFrom(s, 10, []) == Ok(([], 10));
    assert ClassAt(s, 9, false) == Ok((Class(false, []), 11));
    assert SequenceFrom(s, 11, false, items) == Ok((items, 11));
    assert SequenceFrom(s, 9, false, Empty) == Ok((items, 11));
  }

  /** Whatever tables the text `root ::= []` compiles to, they accept the empty word, although
      its grammar does not. */
  lemma {:induction false} EmptyClassExample(ids: Symbols, rules: Rules)
    requires LowersGrammar(ids, rules, EmptyClassGrammar())
    ensures GrammarOf(EMPTY_CLASS_TEXT) == Ok(EmptyClassGrammar())
    ensures "root" in ids && InFlatLanguage(rules, ids["root"], [])
    ensures !InSourceLanguage(EmptyClassGrammar(), "root", [])
  {
    var g, name := EmptyClassGrammar(), "root";
    EmptyClassRead();
    assert name in g && IsUserName(name);
    LoweringPreservesLanguage(ids, rules, g, name, []);
    EmptyClassAsCompiled(name);
    EmptyClassSource(name);
  }

  lemma EmptyClassAsCompiled(name: string)
    requires name == "root"
    ensures InSourceLanguage(AsCompiled(EmptyClassGrammar()), name, [])
  {
    var h, nothing, w: Word := AsCompiled(EmptyClassGrammar()), Then(Empty, Literal([])), [];
    assert w[..0] == w && w[0..] == w;
    assert DenSequence(h, 0, Empty, w[..0]) && DenItem(h, 0, Literal([]), w[0..]);
    assert DenSequence(h, 0, nothing, w);
    assert h[name] == Single(nothing) && DenAlternates(h, 0, h[name], w);
    assert DenItem(h, 1, Reference(name), w);
  }

  lemma EmptyClassSource(name: string)
    requires name == "root"
    ensures !InSourceLanguage(EmptyClassGrammar(), name, [])
  {
    var g := EmptyClassGrammar();
    forall k: nat ensures !DenItem(g, k, Reference(name), []) {
      if k > 0 { assert !DenSequence(g, k - 1, g[name].only, []); }
    }
  }
}
