/** What it means for flat rules to be a lowering of an extended BNF grammar, and the
    proof that a lowering has the same language. */
module GrammarLowering {
  import opened GrammarSyntax

  type Symbols = map<string, nat>

  // ----- the elements that stand for a literal or a class -----

  function LiteralElements(chars: seq<nat>): seq<Element> {
    if chars == [] then [] else [Char(chars[0])] + LiteralElements(chars[1..])
  }

  function UpperOf(item: ClassItem): seq<Element> {
    match item
    case One(_) => []
    case Span(_, hi) => [RngUpper(hi)]
  }

  function LowerOf(item: ClassItem): nat {
    match item
    case One(c) => c
    case Span(lo, _) => lo
  }

  function AltElements(items: seq<ClassItem>): seq<Element> {
    if items == [] then []
    else [CharAlt(LowerOf(items[0]))] + UpperOf(items[0]) + AltElements(items[1..])
  }

  function ClassElements(negated: bool, items: seq<ClassItem>): seq<Element> {
    if items == [] then []
    else
      var c := LowerOf(items[0]);
      [if negated then CharNot(c) else Char(c)] + UpperOf(items[0]) + AltElements(items[1..])
  }

  // ----- the lowering relation -----

  function Width(item: Item): nat {
    match item
    case Literal(chars) => |chars|
    case Class(negated, items) => |ClassElements(negated, items)|
    case _ => 1
  }

  function SequenceWidth(s: Sequence): nat {
    match s
    case Empty => 0
    case Then(init, last) => SequenceWidth(init) + Width(last)
  }

  function AlternatesWidth(a: Alternates): nat {
    match a
    case Single(only) => SequenceWidth(only)
    case Or(front, back) => AlternatesWidth(front) + 1 + SequenceWidth(back)
  }

  /** The rule synthesized for a repetition:
      S* is `S' ::= S S' |`, S+ is `S' ::= S S' | S` and S? is `S' ::= S |`. */
  function RepeatRule(op: RepeatOp, inner: seq<Element>, id: nat): seq<Element> {
    match op
    case Star => inner + [RuleRef(id)] + [Alt] + [] + [End]
    case Plus => inner + [RuleRef(id)] + [Alt] + inner + [End]
    case Optional => inner + [Alt] + [] + [End]
  }

  /** Names of the symbols that the grammar's author can write. */
  predicate IsUserName(name: string) { '_' !in name }

  /** A symbol that the compiler introduced, so no author's rule can replace its rule. */
  predicate Synthesized(ids: Symbols, id: nat) {
    id < |ids| && forall n :: n in ids && IsUserName(n) ==> ids[n] != id
  }

  predicate LowersItem(ids: Symbols, rules: Rules, es: seq<Element>, item: Item)
    decreases item
  {
    match item
    case Literal(chars) => es == LiteralElements(chars)
    case Class(negated, items) => es == ClassElements(negated, items)
    case Reference(name) => name in ids && es == [RuleRef(ids[name])]
    case Group(body) =>
      && |es| == 1 && es[0].RuleRef? && es[0].id < |rules| && Synthesized(ids, es[0].id)
      && var rule := rules[es[0].id];
      && |rule| > 0 && rule[|rule| - 1] == End
      && LowersAlternates(ids, rules, rule[..|rule| - 1], body)
    case Repeat(op, operand) =>
      && |es| == 1 && es[0].RuleRef? && es[0].id < |rules| && Synthesized(ids, es[0].id)
      && var rule := rules[es[0].id];
      && 0 < Width(operand) <= |rule|
      && rule == RepeatRule(op, rule[..Width(operand)], es[0].id)
      && LowersItem(ids, rules, rule[..Width(operand)], operand)
  }

  predicate LowersSequence(ids: Symbols, rules: Rules, es: seq<Element>, s: Sequence)
    decreases s
  {
    match s
    case Empty => es == []
    case Then(init, last) =>
      var m := SequenceWidth(init);
      && |es| == m + Width(last)
      && LowersSequence(ids, rules, es[..m], init)
      && LowersItem(ids, rules, es[m..], last)
  }

  predicate LowersAlternates(ids: Symbols, rules: Rules, es: seq<Element>, a: Alternates)
    decreases a
  {
    match a
    case Single(only) => LowersSequence(ids, rules, es, only)
    case Or(front, back) =>
      var m := AlternatesWidth(front);
      && |es| == m + 1 + SequenceWidth(back)
      && es[m] == Alt
      && LowersAlternates(ids, rules, es[..m], front)
      && LowersSequence(ids, rules, es[m + 1..], back)
  }

  predicate LowersBody(ids: Symbols, rules: Rules, rule: seq<Element>, a: Alternates) {
    && |rule| > 0 && rule[|rule| - 1] == End
    && LowersAlternates(ids, rules, rule[..|rule| - 1], a)
  }

  function RuleAt(rules: Rules, id: nat): seq<Element> {
    if id < |rules| then rules[id] else []
  }

  predicate LowersRule(ids: Symbols, rules: Rules, name: string, a: Alternates) {
    name in ids && NamesOk(a) && LowersBody(ids, rules, RuleAt(rules, ids[name]), a)
  }

  /** Every rule of the grammar is lowered, and names without a rule have none. */
  predicate LowersGrammar(ids: Symbols, rules: Rules, g: Grammar) {
    && (forall n :: n in g ==> LowersRule(ids, rules, n, g[n]))
    && (forall n :: n in ids && IsUserName(n) && n !in g ==> RuleAt(rules, ids[n]) == [])
  }

  // ----- conditions on the source -----

  predicate NamesOkItem(item: Item) {
    match item
    case Reference(name) => IsUserName(name)
    case Group(body) => NamesOk(body)
    case Repeat(_, operand) => NamesOkItem(operand)
    case _ => true
  }

  predicate NamesOkSequence(s: Sequence) {
    match s
    case Empty => true
    case Then(init, last) => NamesOkSequence(init) && NamesOkItem(last)
  }

  predicate NamesOk(a: Alternates) {
    match a
    case Single(only) => NamesOkSequence(only)
    case Or(front, back) => NamesOk(front) && NamesOkSequence(back)
  }

  predicate ClassesOkItem(item: Item) {
    match item
    case Class(_, items) => items != []
    case Group(body) => ClassesOk(body)
    case Repeat(_, operand) => ClassesOkItem(operand)
    case _ => true
  }

  predicate ClassesOkSequence(s: Sequence) {
    match s
    case Empty => true
    case Then(init, last) => ClassesOkSequence(init) && ClassesOkItem(last)
  }

  /** Every character class lists at least one character. */
  predicate ClassesOk(a: Alternates) {
    match a
    case Single(only) => ClassesOkSequence(only)
    case Or(front, back) => ClassesOk(front) && ClassesOkSequence(back)
  }

  predicate ClassesNonEmpty(g: Grammar) {
    forall n :: n in g ==> ClassesOk(g[n])
  }

  // ----- shape of lowered elements -----

  predicate NoBoundary(es: seq<Element>) {
    forall t :: 0 <= t < |es| ==> !es[t].IsBoundary()
  }

  predicate StartsFresh(es: seq<Element>) {
    es == [] || !es[0].IsModifier()
  }

  lemma {:induction false} AltElementsShape(items: seq<ClassItem>)
    ensures NoBoundary(AltElements(items))
  {
    if items != [] { AltElementsShape(items[1..]); }
  }

  lemma {:induction false} LiteralShape(chars: seq<nat>)
    ensures |LiteralElements(chars)| == |chars|
    ensures forall t :: 0 <= t < |chars| ==> LiteralElements(chars)[t] == Char(chars[t])
  {
    if chars != [] { LiteralShape(chars[1..]); }
  }

  /** The elements of one symbol hold no alternate mark and no end mark, and never begin
      in the middle of a class. */
  lemma {:induction false} ItemShape(ids: Symbols, rules: Rules, es: seq<Element>, item: Item)
    requires LowersItem(ids, rules, es, item)
    ensures |es| == Width(item) && NoBoundary(es) && StartsFresh(es)
  {
    match item
    case Literal(chars) => LiteralShape(chars);
    case Class(_, items) => if items != [] { AltElementsShape(items[1..]); }
    case _ =>
  }

  lemma {:induction false} SequenceShape(ids: Symbols, rules: Rules, es: seq<Element>, s: Sequence)
    requires LowersSequence(ids, rules, es, s)
    ensures |es| == SequenceWidth(s) && NoBoundary(es) && StartsFresh(es)
    decreases s
  {
    match s
    case Empty =>
    case Then(init, last) =>
      var m := SequenceWidth(init);
      SequenceShape(ids, rules, es[..m], init);
      ItemShape(ids, rules, es[m..], last);
      assert es == es[..m] + es[m..];
  }

  // ----- flat derivations compose and split -----

  lemma {:induction false} ChainAppend(a: seq<Element>, b: seq<Element>)
    requires a != [] && a[0].IsChar() && StartsFresh(b)
    ensures ChainLength(a + b) == ChainLength(a)
  {
    if |a| > 1 && a[1].RngUpper? {
      if |a| > 2 && a[2].CharAlt? {
        assert (a + b)[2..] == a[2..] + b;
        ChainAppend(a[2..], b);
      }
    } else if |a| > 1 && a[1].CharAlt? {
      assert (a + b)[1..] == a[1..] + b;
      ChainAppend(a[1..], b);
    }
  }

  lemma {:induction false} SymbolsAppend(a: seq<Element>, b: seq<Element>)
    requires StartsFresh(b)
    ensures SymbolsOf(a + b) == SymbolsOf(a) + SymbolsOf(b)
  {
    if a == [] {
      assert a + b == b;
    } else {
      var n := SymbolLength(a);
      FirstSymbolAppend(a, b);
      SymbolsAppend(a[n..], b);
      assert SymbolsOf(a + b) == [a[..n]] + (SymbolsOf(a[n..]) + SymbolsOf(b));
    }
  }

  lemma FirstSymbolAppend(a: seq<Element>, b: seq<Element>)
    requires a != [] && StartsFresh(b)
    ensures var n := SymbolLength(a); SymbolLength(a + b) == n && (a + b)[..n] == a[..n] && (a + b)[n..] == a[n..] + b
  {
    if a[0].IsChar() { ChainAppend(a, b); }
  }

  lemma {:induction false} FlattenAppend(a: seq<Word>, b: seq<Word>)
    ensures Flatten(a + b) == Flatten(a) + Flatten(b)
  {
    if a == [] {
      assert a + b == b;
    } else {
      assert (a + b)[1..] == a[1..] + b;
      FlattenAppend(a[1..], b);
    }
  }

  lemma {:induction false} FlatJoin(rules: Rules, k: nat, a: seq<Element>, b: seq<Element>, u: Word, v: Word)
    requires FlatSequence(rules, k, a, u) && FlatSequence(rules, k, b, v) && StartsFresh(b)
    ensures FlatSequence(rules, k, a + b, u + v)
  {
    SymbolsAppend(a, b);
    var us: seq<Word> :| Flatten(us) == u && FlatSymbols(rules, k, SymbolsOf(a), us);
    var vs: seq<Word> :| Flatten(vs) == v && FlatSymbols(rules, k, SymbolsOf(b), vs);
    FlattenAppend(us, vs);
    assert FlatSymbols(rules, k, SymbolsOf(a + b), us + vs);
  }

  lemma FlatSplit(rules: Rules, k: nat, a: seq<Element>, b: seq<Element>, w: Word) returns (u: Word, v: Word)
    requires FlatSequence(rules, k, a + b, w) && StartsFresh(b)
    ensures w == u + v && FlatSequence(rules, k, a, u) && FlatSequence(rules, k, b, v)
  {
    SymbolsAppend(a, b);
    var ws: seq<Word> :| Flatten(ws) == w && FlatSymbols(rules, k, SymbolsOf(a + b), ws);
    var us, vs := FlatSymbolsSplit(rules, k, SymbolsOf(a), SymbolsOf(b), ws);
    u, v := Flatten(us), Flatten(vs);
  }

  lemma FlatSymbolsSplit(rules: Rules, k: nat, a: seq<seq<Element>>, b: seq<seq<Element>>, ws: seq<Word>)
    returns (us: seq<Word>, vs: seq<Word>)
    requires FlatSymbols(rules, k, a + b, ws)
    ensures Flatten(ws) == Flatten(us) + Flatten(vs) && FlatSymbols(rules, k, a, us) && FlatSymbols(rules, k, b, vs)
  {
    us, vs := ws[..|a|], ws[|a|..];
    forall i | 0 <= i < |a| ensures FlatSymbol(rules, k, a[i], us[i]) {
      assert (a + b)[i] == a[i];
    }
    forall i | 0 <= i < |b| ensures FlatSymbol(rules, k, b[i], vs[i]) {
      assert (a + b)[|a| + i] == b[i];
    }
    FlattenAppend(us, vs);
    assert ws == us + vs;
  }

  lemma FlatEmpty(rules: Rules, k: nat, w: Word)
    ensures FlatSequence(rules, k, [], w) <==> w == []
  {
    assert FlatSymbols(rules, k, SymbolsOf([]), []);
    assert Flatten([]) == [];
  }

  /** A sequence of a single symbol derives what the symbol derives. */
  lemma FlatSingle(rules: Rules, k: nat, es: seq<Element>, w: Word)
    requires es != [] && SymbolLength(es) == |es|
    ensures FlatSequence(rules, k, es, w) <==> FlatSymbol(rules, k, es, w)
  {
    assert es[..|es|] == es && es[|es|..] == [];
    assert SymbolsOf(es) == [es];
    if FlatSequence(rules, k, es, w) {
      var ws: seq<Word> :| Flatten(ws) == w && FlatSymbols(rules, k, SymbolsOf(es), ws);
      assert ws == [ws[0]] && ws[1..] == [] && ws[0] + [] == ws[0];
    }
    if FlatSymbol(rules, k, es, w) {
      assert Flatten([w]) == w;
      assert FlatSymbols(rules, k, SymbolsOf(es), [w]);
    }
  }

  // ----- more depth never loses a word -----

  lemma {:induction false} FlatSequenceDeeper(rules: Rules, k: nat, m: nat, es: seq<Element>, w: Word)
    requires FlatSequence(rules, k, es, w) && k <= m
    ensures FlatSequence(rules, m, es, w)
    decreases k, 1
  {
    var symbols := SymbolsOf(es);
    var ws: seq<Word> :| Flatten(ws) == w && FlatSymbols(rules, k, symbols, ws);
    forall i | 0 <= i < |ws| ensures FlatSymbol(rules, m, symbols[i], ws[i]) {
      assert FlatSymbol(rules, k, symbols[i], ws[i]);
      if symbols[i][0].RuleRef? { FlatRuleDeeper(rules, k, m, symbols[i][0].id, ws[i]); }
    }
    assert FlatSymbols(rules, m, symbols, ws);
  }

  lemma {:induction false} FlatRuleDeeper(rules: Rules, k: nat, m: nat, id: nat, w: Word)
    requires FlatRule(rules, k, id, w) && k <= m
    ensures FlatRule(rules, m, id, w)
    decreases k, 0
  {
    var rule := rules[id];
    var i, j :| IsAlternate(rule, i, j) && FlatSequence(rules, k - 1, rule[i..j], w);
    FlatSequenceDeeper(rules, k - 1, m - 1, rule[i..j], w);
  }

  lemma {:induction false} DenItemDeeper(g: Grammar, k: nat, m: nat, item: Item, w: Word)
    requires DenItem(g, k, item, w) && k <= m
    ensures DenItem(g, m, item, w)
    decreases k, item
  {
    match item
    case Reference(name) => DenAlternatesDeeper(g, k - 1, m - 1, g[name], w);
    case Group(body) => DenAlternatesDeeper(g, k, m, body, w);
    case Repeat(op, operand) =>
      var ws: seq<Word> :| Flatten(ws) == w && CountAllowed(op, |ws|) && DenAll(g, k, operand, ws);
      forall i | 0 <= i < |ws| ensures DenItem(g, m, operand, ws[i]) {
        DenItemDeeper(g, k, m, operand, ws[i]);
      }
      assert DenAll(g, m, operand, ws);
    case _ =>
  }

  lemma {:induction false} DenSequenceDeeper(g: Grammar, k: nat, m: nat, s: Sequence, w: Word)
    requires DenSequence(g, k, s, w) && k <= m
    ensures DenSequence(g, m, s, w)
    decreases k, s
  {
    match s
    case Empty =>
    case Then(init, last) =>
      var i :| 0 <= i <= |w| && DenSequence(g, k, init, w[..i]) && DenItem(g, k, last, w[i..]);
      DenSequenceDeeper(g, k, m, init, w[..i]);
      DenItemDeeper(g, k, m, last, w[i..]);
  }

  lemma {:induction false} DenAlternatesDeeper(g: Grammar, k: nat, m: nat, a: Alternates, w: Word)
    requires DenAlternates(g, k, a, w) && k <= m
    ensures DenAlternates(g, m, a, w)
    decreases k, a
  {
    match a
    case Single(only) => DenSequenceDeeper(g, k, m, only, w);
    case Or(front, back) =>
      if DenAlternates(g, k, front, w) {
        DenAlternatesDeeper(g, k, m, front, w);
      } else {
        DenSequenceDeeper(g, k, m, back, w);
      }
  }

  // ----- literals and classes -----

  lemma {:induction false} LiteralLanguage(rules: Rules, k: nat, chars: seq<nat>, w: Word)
    ensures FlatSequence(rules, k, LiteralElements(chars), w) <==> w == chars
  {
    var es := LiteralElements(chars);
    if chars == [] {
      FlatEmpty(rules, k, w);
    } else {
      var tail := LiteralElements(chars[1..]);
      LiteralShape(chars);
      LiteralShape(chars[1..]);
      assert es == [Char(chars[0])] + tail;
      FlatSingle(rules, k, [Char(chars[0])], [chars[0]]);
      if w == chars {
        LiteralLanguage(rules, k, chars[1..], chars[1..]);
        FlatJoin(rules, k, [Char(chars[0])], tail, [chars[0]], chars[1..]);
        assert w == [chars[0]] + chars[1..];
      }
      if FlatSequence(rules, k, es, w) {
        var u, v := FlatSplit(rules, k, [Char(chars[0])], tail, w);
        FlatSingle(rules, k, [Char(chars[0])], u);
        LiteralLanguage(rules, k, chars[1..], v);
        assert u == [chars[0]];
      }
    }
  }

  predicate SomeItemHas(items: seq<ClassItem>, c: nat) {
    exists i :: 0 <= i < |items| && ItemHas(items[i], c)
  }

  lemma SomeItemHasCons(items: seq<ClassItem>, c: nat)
    requires items != []
    ensures SomeItemHas(items, c) <==> ItemHas(items[0], c) || SomeItemHas(items[1..], c)
  {
    if SomeItemHas(items[1..], c) {
      var i :| 0 <= i < |items[1..]| && ItemHas(items[1..][i], c);
      assert ItemHas(items[i + 1], c);
    }
    if SomeItemHas(items, c) && !ItemHas(items[0], c) {
      var i :| 0 <= i < |items| && ItemHas(items[i], c);
      assert items[i] == items[1..][i - 1];
    }
  }

  /** A chain whose first element carries the first item's character has what the items have. */
  lemma {:induction false} ChainOfItems(es: seq<Element>, items: seq<ClassItem>, c: nat)
    requires items != [] && es != [] && es[0].IsChar() && es[0].c == LowerOf(items[0])
    requires es[1..] == UpperOf(items[0]) + AltElements(items[1..])
    ensures ChainLength(es) == |es|
    ensures ChainHas(es, c) <==> SomeItemHas(items, c)
    decreases |items|
  {
    SomeItemHasCons(items, c);
    var rest := items[1..];
    var u := 1 + |UpperOf(items[0])|;
    assert es[u..] == AltElements(rest);
    if rest != [] {
      assert es[u..][1..] == UpperOf(rest[0]) + AltElements(rest[1..]);
      ChainOfItems(es[u..], rest, c);
    }
    assert items[0].Span? ==> es[1] == es[1..][0] == RngUpper(items[0].hi);
    ChainFirst(es, items, c, u);
  }

  lemma ChainFirst(es: seq<Element>, items: seq<ClassItem>, c: nat, u: nat)
    requires items != [] && es != [] && es[0].IsChar() && es[0].c == LowerOf(items[0])
    requires u == 1 + |UpperOf(items[0])| <= |es|
    requires items[0].Span? ==> es[1] == RngUpper(items[0].hi)
    requires es[u..] == AltElements(items[1..])
    requires items[1..] != [] ==> ChainLength(es[u..]) == |es[u..]|
    ensures ChainLength(es) == |es|
    ensures ChainHas(es, c) <==> ItemHas(items[0], c) || (items[1..] != [] && ChainHas(es[u..], c))
  {
    if items[1..] == [] {
      assert |es[u..]| == 0;
    } else {
      assert es[u] == es[u..][0] == CharAlt(LowerOf(items[1]));
    }
  }

  lemma ClassFront(negated: bool, items: seq<ClassItem>)
    requires items != []
    ensures var es, c := ClassElements(negated, items), LowerOf(items[0]);
      && es != [] && es[0] == (if negated then CharNot(c) else Char(c))
      && es[1..] == UpperOf(items[0]) + AltElements(items[1..])
  {
    var c := LowerOf(items[0]);
    FrontOf(if negated then CharNot(c) else Char(c), UpperOf(items[0]), AltElements(items[1..]));
  }

  lemma FrontOf(e: Element, a: seq<Element>, b: seq<Element>)
    ensures ([e] + a + b)[0] == e && ([e] + a + b)[1..] == a + b
  {
  }

  lemma CharSymbol(rules: Rules, k: nat, es: seq<Element>, negated: bool, w: Word)
    requires es != [] && (if negated then es[0].CharNot? else es[0].Char?)
    ensures SymbolLength(es) == ChainLength(es)
    ensures FlatSymbol(rules, k, es, w) <==> |w| == 1 && negated != ChainHas(es, w[0])
  {
  }

  lemma ClassSymbol(rules: Rules, k: nat, negated: bool, items: seq<ClassItem>, w: Word)
    requires items != []
    ensures var es := ClassElements(negated, items);
      && SymbolLength(es) == |es|
      && (FlatSymbol(rules, k, es, w) <==> |w| == 1 && ClassHas(negated, items, w[0]))
  {
    var es := ClassElements(negated, items);
    ClassFront(negated, items);
    CharSymbol(rules, k, es, negated, w);
    var c := if w == [] then 0 else w[0];
    ChainOfItems(es, items, c);
    assert ClassHas(negated, items, c) <==> negated != SomeItemHas(items, c);
  }

  lemma ClassLanguage(rules: Rules, k: nat, negated: bool, items: seq<ClassItem>, w: Word)
    requires items != []
    ensures FlatSequence(rules, k, ClassElements(negated, items), w) <==> |w| == 1 && ClassHas(negated, items, w[0])
  {
    ClassSymbol(rules, k, negated, items, w);
    FlatSingle(rules, k, ClassElements(negated, items), w);
  }

  /** A class keeps its meaning exactly when it lists something: `[]` and `[^]` lower to no
      element at all, which derives the empty word that no class denotes. */
  lemma ClassKeptIffNonEmpty(rules: Rules, k: nat, negated: bool, items: seq<ClassItem>)
    ensures items != [] <==>
            forall w :: FlatSequence(rules, k, ClassElements(negated, items), w) <==>
              |w| == 1 && ClassHas(negated, items, w[0])
  {
    if items == [] {
      FlatEmpty(rules, k, []);
      assert FlatSequence(rules, k, ClassElements(negated, items), []);
    } else {
      forall w
        ensures FlatSequence(rules, k, ClassElements(negated, items), w) <==>
                  |w| == 1 && ClassHas(negated, items, w[0])
      {
        ClassLanguage(rules, k, negated, items, w);
      }
    }
  }

  // ----- alternates -----

  /** The alternates of `es` on either side of an alternate mark in it. */
  lemma AlternatesAround(es: seq<Element>, m: nat, i: int, j: int)
    requires m < |es| && es[m] == Alt && (forall t :: 0 <= t < |es| ==> !es[t].End?)
    ensures j <= m ==> (IsAlternate(es + [End], i, j) <==> IsAlternate(es[..m] + [End], i, j))
    ensures i > m ==> (IsAlternate(es + [End], i, j) <==> IsAlternate(es[m + 1..] + [End], i - m - 1, j - m - 1))
    ensures IsAlternate(es + [End], i, j) ==> j <= m || i > m
  {
    var r, f, b := es + [End], es[..m] + [End], es[m + 1..] + [End];
    assert forall t :: 0 <= t < m ==> r[t] == f[t];
    assert forall t :: 0 <= t < |b| ==> r[m + 1 + t] == b[t];
    assert forall t :: m < t < |r| ==> r[t] == b[t - m - 1];
    assert r[m] == Alt;
  }

  lemma OneAlternate(es: seq<Element>, i: int, j: int)
    requires NoBoundary(es)
    ensures IsAlternate(es + [End], i, j) <==> i == 0 && j == |es|
  {
    assert forall t :: 0 <= t < |es| ==> (es + [End])[t] == es[t];
  }

  /** The last alternate of `es`, or one in front of the mark before it. */
  lemma LastAlternate(es: seq<Element>, m: nat, i: int, j: int)
    requires m < |es| && es[m] == Alt && NoBoundary(es[m + 1..])
    requires (forall t :: 0 <= t < |es| ==> !es[t].End?) && IsAlternate(es + [End], i, j)
    ensures j <= m ==> IsAlternate(es[..m] + [End], i, j) && es[..m][i..j] == es[i..j]
    ensures j > m ==> es[i..j] == es[m + 1..]
  {
    AlternatesAround(es, m, i, j);
    OneAlternate(es[m + 1..], i - m - 1, j - m - 1);
  }

  lemma TwoAlternates(x: seq<Element>, y: seq<Element>, i: int, j: int)
    requires NoBoundary(x) && NoBoundary(y)
    ensures IsAlternate(x + [Alt] + y + [End], i, j)
            <==> (i == 0 && j == |x|) || (i == |x| + 1 && j == |x| + 1 + |y|)
  {
    var es := x + [Alt] + y;
    assert es[..|x|] == x && es[|x| + 1..] == y;
    AlternatesAround(es, |x|, i, j);
    OneAlternate(x, i, j);
    OneAlternate(y, i - |x| - 1, j - |x| - 1);
  }

  lemma TwoAlternatesBody(rules: Rules, k: nat, x: seq<Element>, y: seq<Element>, w: Word)
    requires NoBoundary(x) && NoBoundary(y)
    ensures FlatBody(rules, k, x + [Alt] + y + [End], w)
            <==> FlatSequence(rules, k, x, w) || FlatSequence(rules, k, y, w)
  {
    var r := x + [Alt] + y + [End];
    assert r[0..|x|] == x && r[|x| + 1..|x| + 1 + |y|] == y;
    TwoAlternates(x, y, 0, |x|);
    TwoAlternates(x, y, |x| + 1, |x| + 1 + |y|);
    if FlatBody(rules, k, r, w) {
      var i, j :| IsAlternate(r, i, j) && FlatSequence(rules, k, r[i..j], w);
      TwoAlternates(x, y, i, j);
    }
  }

  lemma RepeatRuleBody(rules: Rules, k: nat, op: RepeatOp, inner: seq<Element>, id: nat, w: Word)
    requires NoBoundary(inner)
    ensures FlatBody(rules, k, RepeatRule(op, inner, id), w)
            <==> || (op != Optional && FlatSequence(rules, k, inner + [RuleRef(id)], w))
                 || (op != Star && FlatSequence(rules, k, inner, w))
                 || (op != Plus && w == [])
  {
    var x := if op == Optional then inner else inner + [RuleRef(id)];
    var y := if op == Plus then inner else [];
    assert RepeatRule(op, inner, id) == x + [Alt] + y + [End];
    TwoAlternatesBody(rules, k, x, y, w);
    FlatEmpty(rules, k, w);
  }

  // ----- every flat derivation is a source derivation -----

  ghost predicate Context(ids: Symbols, rules: Rules, g: Grammar) {
    LowersGrammar(ids, rules, g) && ClassesNonEmpty(g)
  }

  lemma {:induction false} ItemUp(ids: Symbols, rules: Rules, g: Grammar, k: nat, es: seq<Element>, item: Item, w: Word)
    requires Context(ids, rules, g) && NamesOkItem(item) && ClassesOkItem(item)
    requires LowersItem(ids, rules, es, item) && FlatSequence(rules, k, es, w)
    ensures DenItem(g, k, item, w)
    decreases k, item, 0
  {
    match item
    case Literal(chars) => LiteralLanguage(rules, k, chars, w);
    case Class(negated, items) => ClassLanguage(rules, k, negated, items, w);
    case Reference(name) =>
      SingleRef(rules, k, es, w);
      assert name in g;
      RuleUp(ids, rules, g, k, ids[name], g[name], w);
    case Group(body) =>
      SingleRef(rules, k, es, w);
      RuleUp(ids, rules, g, k, es[0].id, body, w);
      DenAlternatesDeeper(g, k - 1, k, body, w);
    case Repeat(op, operand) =>
      SingleRef(rules, k, es, w);
      var ws := RepeatUp(ids, rules, g, k, es[0].id, rules[es[0].id][..Width(operand)], op, operand, w);
      assert DenAll(g, k, operand, ws);
  }

  lemma {:induction false} RuleUp(ids: Symbols, rules: Rules, g: Grammar, k: nat, id: nat, a: Alternates, w: Word)
    requires Context(ids, rules, g) && NamesOk(a) && ClassesOk(a)
    requires FlatRule(rules, k, id, w) && LowersBody(ids, rules, rules[id], a)
    ensures DenAlternates(g, k - 1, a, w)
    decreases k - 1, a, 1
  {
    var rule := rules[id];
    var es := rule[..|rule| - 1];
    assert rule == es + [End];
    var i, j :| IsAlternate(rule, i, j) && FlatSequence(rules, k - 1, rule[i..j], w);
    assert rule[i..j] == es[i..j];
    BodyUp(ids, rules, g, k - 1, es, a, i, j, w);
  }

  lemma SingleRef(rules: Rules, k: nat, es: seq<Element>, w: Word)
    requires |es| == 1 && es[0].RuleRef?
    ensures FlatSequence(rules, k, es, w) <==> FlatRule(rules, k, es[0].id, w)
  {
    FlatSingle(rules, k, es, w);
  }

  /** A derivation from a repetition's rule unrolls into the words of the single turns. */
  lemma {:induction false} RepeatUp(ids: Symbols, rules: Rules, g: Grammar, k: nat, id: nat, inner: seq<Element>,
                                    op: RepeatOp, operand: Item, w: Word)
    returns (ws: seq<Word>)
    requires Context(ids, rules, g) && NamesOkItem(operand) && ClassesOkItem(operand)
    requires id < |rules| && rules[id] == RepeatRule(op, inner, id) && LowersItem(ids, rules, inner, operand)
    requires FlatRule(rules, k, id, w)
    ensures Flatten(ws) == w && CountAllowed(op, |ws|) && DenAll(g, k, operand, ws)
    decreases k, operand, 1
  {
    ItemShape(ids, rules, inner, operand);
    var i, more := RepeatTurn(rules, k, op, inner, id, w);
    if i < 0 {
      ws := [];
    } else {
      ItemUp(ids, rules, g, k - 1, inner, operand, w[..i]);
      var rest := [];
      if more {
        rest := RepeatUp(ids, rules, g, k - 1, id, inner, op, operand, w[i..]);
      } else {
        assert w[i..] == [];
      }
      ws := AddTurn(g, k, operand, w, i, rest);
    }
  }

  /** One turn of a repetition's rule: nothing (`i == -1`), or an operand word `w[..i]` and a rest. */
  lemma RepeatTurn(rules: Rules, k: nat, op: RepeatOp, inner: seq<Element>, id: nat, w: Word)
    returns (i: int, more: bool)
    requires NoBoundary(inner) && FlatRule(rules, k, id, w) && rules[id] == RepeatRule(op, inner, id)
    ensures -1 <= i <= |w|
    ensures i < 0 ==> w == [] && op != Plus
    ensures i >= 0 ==> FlatSequence(rules, k - 1, inner, w[..i])
    ensures more ==> i >= 0 && op != Optional && FlatRule(rules, k - 1, id, w[i..])
    ensures i >= 0 && !more ==> i == |w| && op != Star
  {
    RepeatRuleBody(rules, k - 1, op, inner, id, w);
    more := false;
    if op != Plus && w == [] {
      i := -1;
    } else if op != Star && FlatSequence(rules, k - 1, inner, w) {
      i := |w|;
      assert w[..i] == w;
    } else {
      var u, v := FlatSplit(rules, k - 1, inner, [RuleRef(id)], w);
      SingleRef(rules, k - 1, [RuleRef(id)], v);
      i := |u|;
      assert w[..i] == u && w[i..] == v;
      more := true;
    }
  }

  lemma {:induction false} AddTurn(g: Grammar, k: nat, item: Item, w: Word, i: int, rest: seq<Word>)
    returns (ws: seq<Word>)
    requires k > 0 && 0 <= i <= |w| && DenItem(g, k - 1, item, w[..i]) && DenAll(g, k - 1, item, rest)
    requires Flatten(rest) == w[i..]
    ensures |ws| == |rest| + 1 && Flatten(ws) == w && DenAll(g, k, item, ws)
  {
    ws := [w[..i]] + rest;
    forall t | 0 <= t < |ws| ensures DenItem(g, k, item, ws[t]) {
      DenItemDeeper(g, k - 1, k, item, ws[t]);
    }
    assert ws[1..] == rest && w[..i] + w[i..] == w;
  }

  lemma {:induction false} SequenceUp(ids: Symbols, rules: Rules, g: Grammar, k: nat, es: seq<Element>, s: Sequence,
                                      w: Word)
    requires Context(ids, rules, g) && NamesOkSequence(s) && ClassesOkSequence(s)
    requires LowersSequence(ids, rules, es, s) && FlatSequence(rules, k, es, w)
    ensures DenSequence(g, k, s, w)
    decreases k, s, 0
  {
    match s
    case Empty => FlatEmpty(rules, k, w);
    case Then(init, last) =>
      var m := SequenceWidth(init);
      ItemShape(ids, rules, es[m..], last);
      assert es == es[..m] + es[m..];
      var u, v := FlatSplit(rules, k, es[..m], es[m..], w);
      SequenceUp(ids, rules, g, k, es[..m], init, u);
      ItemUp(ids, rules, g, k, es[m..], last, v);
      assert w[..|u|] == u && w[|u|..] == v;
  }

  lemma {:induction false} BodyUp(ids: Symbols, rules: Rules, g: Grammar, k: nat, es: seq<Element>, a: Alternates,
                                  i: int, j: int, w: Word)
    requires Context(ids, rules, g) && NamesOk(a) && ClassesOk(a)
    requires LowersAlternates(ids, rules, es, a)
    requires IsAlternate(es + [End], i, j) && FlatSequence(rules, k, es[i..j], w)
    ensures DenAlternates(g, k, a, w)
    decreases k, a, 0
  {
    match a
    case Single(only) =>
      SequenceShape(ids, rules, es, only);
      OneAlternate(es, i, j);
      assert es[i..j] == es;
      SequenceUp(ids, rules, g, k, es, only, w);
    case Or(front, back) =>
      var m := AlternatesWidth(front);
      AlternatesEndFree(ids, rules, es, a);
      SequenceShape(ids, rules, es[m + 1..], back);
      LastAlternate(es, m, i, j);
      if j <= m {
        BodyUp(ids, rules, g, k, es[..m], front, i, j, w);
      } else {
        SequenceUp(ids, rules, g, k, es[m + 1..], back, w);
      }
  }

  // ----- every source derivation is a flat derivation -----

  lemma {:induction false} ItemDown(ids: Symbols, rules: Rules, g: Grammar, k: nat, es: seq<Element>, item: Item,
                                    w: Word)
    returns (d: nat)
    requires Context(ids, rules, g) && ClassesOkItem(item)
    requires LowersItem(ids, rules, es, item) && DenItem(g, k, item, w)
    ensures FlatSequence(rules, d, es, w)
    decreases k, item, 0
  {
    match item
    case Literal(chars) =>
      LiteralLanguage(rules, 0, chars, w);
      d := 0;
    case Class(negated, items) =>
      ClassLanguage(rules, 0, negated, items, w);
      d := 0;
    case Reference(name) =>
      d := RuleDown(ids, rules, g, k - 1, ids[name], g[name], w);
      SingleRef(rules, d, es, w);
    case Group(body) =>
      d := RuleDown(ids, rules, g, k, es[0].id, body, w);
      SingleRef(rules, d, es, w);
    case Repeat(op, operand) =>
      var ws: seq<Word> :| Flatten(ws) == w && CountAllowed(op, |ws|) && DenAll(g, k, operand, ws);
      d := RepeatDown(ids, rules, g, k, es[0].id, rules[es[0].id][..Width(operand)], op, operand, ws);
      assert es == [RuleRef(es[0].id)];
      SingleRef(rules, d, es, w);
  }

  lemma {:induction false} RepeatDown(ids: Symbols, rules: Rules, g: Grammar, k: nat, id: nat, inner: seq<Element>,
                                      op: RepeatOp, operand: Item, ws: seq<Word>)
    returns (d: nat)
    requires Context(ids, rules, g) && ClassesOkItem(operand)
    requires id < |rules| && rules[id] == RepeatRule(op, inner, id) && LowersItem(ids, rules, inner, operand)
    requires CountAllowed(op, |ws|) && DenAll(g, k, operand, ws)
    ensures FlatRule(rules, d, id, Flatten(ws))
    decreases k, operand, 1 + |ws|
  {
    ItemShape(ids, rules, inner, operand);
    if ws == [] {
      RepeatRuleBody(rules, 0, op, inner, id, []);
      d := 1;
    } else {
      var h := ItemDown(ids, rules, g, k, inner, operand, ws[0]);
      if |ws| == 1 && op != Star {
        assert ws[1..] == [] && Flatten(ws) == ws[0] + [] == ws[0];
        RepeatOnce(rules, h, op, inner, id, ws[0]);
        d := h + 1;
      } else {
        DenAllTail(g, k, operand, ws);
        var r := RepeatDown(ids, rules, g, k, id, inner, op, operand, ws[1..]);
        d := 1 + if h < r then r else h;
        RepeatJoin(rules, h, r, d - 1, op, inner, id, ws[0], Flatten(ws[1..]));
      }
    }
  }

  lemma DenAllTail(g: Grammar, k: nat, item: Item, ws: seq<Word>)
    requires ws != [] && DenAll(g, k, item, ws)
    ensures DenAll(g, k, item, ws[1..])
  {
  }

  lemma RepeatJoin(rules: Rules, h: nat, r: nat, m: nat, op: RepeatOp, inner: seq<Element>, id: nat, u: Word, v: Word)
    requires h <= m && r <= m && FlatSequence(rules, h, inner, u) && FlatRule(rules, r, id, v)
    requires id < |rules| && rules[id] == RepeatRule(op, inner, id) && NoBoundary(inner) && op != Optional
    ensures FlatRule(rules, m + 1, id, u + v)
  {
    JoinReference(rules, h, r, m, inner, id, u, v);
    RepeatAgain(rules, m, op, inner, id, u + v);
  }

  lemma RepeatOnce(rules: Rules, m: nat, op: RepeatOp, inner: seq<Element>, id: nat, w: Word)
    requires FlatSequence(rules, m, inner, w) && NoBoundary(inner) && op != Star
    requires id < |rules| && rules[id] == RepeatRule(op, inner, id)
    ensures FlatRule(rules, m + 1, id, w)
  {
    RepeatRuleBody(rules, m, op, inner, id, w);
  }

  lemma RepeatAgain(rules: Rules, m: nat, op: RepeatOp, inner: seq<Element>, id: nat, w: Word)
    requires FlatSequence(rules, m, inner + [RuleRef(id)], w) && NoBoundary(inner) && op != Optional
    requires id < |rules| && rules[id] == RepeatRule(op, inner, id)
    ensures FlatRule(rules, m + 1, id, w)
  {
    RepeatRuleBody(rules, m, op, inner, id, w);
  }

  lemma JoinReference(rules: Rules, h: nat, r: nat, m: nat, es: seq<Element>, id: nat, u: Word, v: Word)
    requires h <= m && r <= m && FlatSequence(rules, h, es, u) && FlatRule(rules, r, id, v)
    ensures FlatSequence(rules, m, es + [RuleRef(id)], u + v)
  {
    FlatSequenceDeeper(rules, h, m, es, u);
    FlatRuleDeeper(rules, r, m, id, v);
    SingleRef(rules, m, [RuleRef(id)], v);
    FlatJoin(rules, m, es, [RuleRef(id)], u, v);
  }

  lemma {:induction false} SequenceDown(ids: Symbols, rules: Rules, g: Grammar, k: nat, es: seq<Element>, s: Sequence,
                                        w: Word)
    returns (d: nat)
    requires Context(ids, rules, g) && ClassesOkSequence(s)
    requires LowersSequence(ids, rules, es, s) && DenSequence(g, k, s, w)
    ensures FlatSequence(rules, d, es, w)
    decreases k, s, 0
  {
    match s
    case Empty =>
      FlatEmpty(rules, 0, w);
      d := 0;
    case Then(init, last) =>
      var m := SequenceWidth(init);
      var i :| 0 <= i <= |w| && DenSequence(g, k, init, w[..i]) && DenItem(g, k, last, w[i..]);
      var a := SequenceDown(ids, rules, g, k, es[..m], init, w[..i]);
      var b := ItemDown(ids, rules, g, k, es[m..], last, w[i..]);
      d := if a < b then b else a;
      ItemShape(ids, rules, es[m..], last);
      FlatJoinAt(rules, a, b, d, es, m, w, i);
  }

  lemma FlatJoinAt(rules: Rules, a: nat, b: nat, d: nat, es: seq<Element>, m: nat, w: Word, i: int)
    requires a <= d && b <= d && m <= |es| && 0 <= i <= |w| && StartsFresh(es[m..])
    requires FlatSequence(rules, a, es[..m], w[..i]) && FlatSequence(rules, b, es[m..], w[i..])
    ensures FlatSequence(rules, d, es, w)
  {
    FlatSequenceDeeper(rules, a, d, es[..m], w[..i]);
    FlatSequenceDeeper(rules, b, d, es[m..], w[i..]);
    FlatJoin(rules, d, es[..m], es[m..], w[..i], w[i..]);
    assert es[..m] + es[m..] == es && w[..i] + w[i..] == w;
  }

  lemma {:induction false} RuleDown(ids: Symbols, rules: Rules, g: Grammar, k: nat, id: nat, a: Alternates, w: Word)
    returns (d: nat)
    requires Context(ids, rules, g) && ClassesOk(a)
    requires id < |rules| && LowersBody(ids, rules, rules[id], a) && DenAlternates(g, k, a, w)
    ensures FlatRule(rules, d, id, w)
    decreases k, a, 1
  {
    var rule := rules[id];
    var es := rule[..|rule| - 1];
    assert rule == es + [End];
    var h, i, j := BodyDown(ids, rules, g, k, es, a, w);
    assert rule[i..j] == es[i..j];
    d := h + 1;
  }

  lemma {:induction false} BodyDown(ids: Symbols, rules: Rules, g: Grammar, k: nat, es: seq<Element>, a: Alternates,
                                    w: Word)
    returns (d: nat, i: int, j: int)
    requires Context(ids, rules, g) && ClassesOk(a)
    requires LowersAlternates(ids, rules, es, a) && DenAlternates(g, k, a, w)
    ensures IsAlternate(es + [End], i, j) && FlatSequence(rules, d, es[i..j], w)
    decreases k, a, 0
  {
    match a
    case Single(only) =>
      i, j := 0, |es|;
      d := OnlyDown(ids, rules, g, k, es, only, w);
    case Or(front, back) =>
      var m := AlternatesWidth(front);
      AlternatesEndFree(ids, rules, es, a);
      if DenAlternates(g, k, front, w) {
        d, i, j := BodyDown(ids, rules, g, k, es[..m], front, w);
        FrontAlternate(es, m, i, j);
      } else {
        i, j := m + 1, |es|;
        d := BackDown(ids, rules, g, k, es, m, back, w);
      }
  }

  lemma {:induction false} OnlyDown(ids: Symbols, rules: Rules, g: Grammar, k: nat, es: seq<Element>, only: Sequence,
                                    w: Word) returns (d: nat)
    requires Context(ids, rules, g) && ClassesOkSequence(only) && LowersSequence(ids, rules, es, only)
    requires DenSequence(g, k, only, w)
    ensures IsAlternate(es + [End], 0, |es|) && FlatSequence(rules, d, es[0..|es|], w)
    decreases k, only, 1
  {
    SequenceShape(ids, rules, es, only);
    d := SequenceDown(ids, rules, g, k, es, only, w);
    OneAlternate(es, 0, |es|);
    assert es[0..|es|] == es;
  }

  lemma {:induction false} BackDown(ids: Symbols, rules: Rules, g: Grammar, k: nat, es: seq<Element>, m: nat,
                                    back: Sequence, w: Word) returns (d: nat)
    requires Context(ids, rules, g) && ClassesOkSequence(back) && m < |es| && es[m] == Alt
              && forall t :: 0 <= t < |es| ==> !es[t].End?
    requires LowersSequence(ids, rules, es[m + 1..], back) && DenSequence(g, k, back, w)
    ensures IsAlternate(es + [End], m + 1, |es|) && FlatSequence(rules, d, es[m + 1..|es|], w)
    decreases k, back, 1
  {
    SequenceShape(ids, rules, es[m + 1..], back);
    d := SequenceDown(ids, rules, g, k, es[m + 1..], back, w);
    BackAlternate(es, m);
  }

  lemma FrontAlternate(es: seq<Element>, m: nat, i: int, j: int)
    requires m < |es| && es[m] == Alt && (forall t :: 0 <= t < |es| ==> !es[t].End?)
    requires IsAlternate(es[..m] + [End], i, j)
    ensures IsAlternate(es + [End], i, j) && es[i..j] == es[..m][i..j]
  {
    AlternatesAround(es, m, i, j);
  }

  lemma BackAlternate(es: seq<Element>, m: nat)
    requires m < |es| && es[m] == Alt && (forall t :: 0 <= t < |es| ==> !es[t].End?) && NoBoundary(es[m + 1..])
    ensures IsAlternate(es + [End], m + 1, |es|) && es[m + 1..|es|] == es[m + 1..]
  {
    OneAlternate(es[m + 1..], 0, |es| - m - 1);
    AlternatesAround(es, m, m + 1, |es|);
  }

  lemma {:induction false} AlternatesEndFree(ids: Symbols, rules: Rules, es: seq<Element>, a: Alternates)
    requires LowersAlternates(ids, rules, es, a)
    ensures forall t :: 0 <= t < |es| ==> !es[t].End?
    decreases a
  {
    match a
    case Single(only) => SequenceShape(ids, rules, es, only);
    case Or(front, back) =>
      var m := AlternatesWidth(front);
      AlternatesEndFree(ids, rules, es[..m], front);
      SequenceShape(ids, rules, es[m + 1..], back);
      EndFreeAround(es, m);
  }

  lemma EndFreeAround(es: seq<Element>, m: nat)
    requires m < |es| && es[m] == Alt && (forall t :: 0 <= t < m ==> !es[..m][t].End?) && NoBoundary(es[m + 1..])
    ensures forall t :: 0 <= t < |es| ==> !es[t].End?
  {
    forall t | 0 <= t < |es| ensures !es[t].End? {
      if t < m { assert es[t] == es[..m][t]; }
      if t > m { assert es[t] == es[m + 1..][t - m - 1]; }
    }
  }

  lemma NonEmptyClassesPreserved(ids: Symbols, rules: Rules, g: Grammar, name: string, w: Word)
    requires LowersGrammar(ids, rules, g) && ClassesNonEmpty(g)
    requires name in ids && IsUserName(name)
    ensures InSourceLanguage(g, name, w) <==> InFlatLanguage(rules, ids[name], w)
  {
    var es := [RuleRef(ids[name])];
    if InSourceLanguage(g, name, w) {
      var k: nat :| DenItem(g, k, Reference(name), w);
      var d := ItemDown(ids, rules, g, k, es, Reference(name), w);
      SingleRef(rules, d, es, w);
    }
    if InFlatLanguage(rules, ids[name], w) {
      var k: nat :| FlatRule(rules, k, ids[name], w);
      SingleRef(rules, k, es, w);
      ItemUp(ids, rules, g, k, es, Reference(name), w);
    }
  }

  // ----- empty classes -----

  /** What the compiler makes of an item: a class that lists nothing reads as nothing. */
  function CompiledItem(item: Item): Item {
    match item
    case Class(_, items) => if items == [] then Literal([]) else item
    case Group(body) => Group(Compiled(body))
    case Repeat(op, operand) => Repeat(op, CompiledItem(operand))
    case _ => item
  }

  function CompiledSequence(s: Sequence): Sequence {
    match s
    case Empty => Empty
    case Then(init, last) => Then(CompiledSequence(init), CompiledItem(last))
  }

  function Compiled(a: Alternates): Alternates {
    match a
    case Single(only) => Single(CompiledSequence(only))
    case Or(front, back) => Or(Compiled(front), CompiledSequence(back))
  }

  function AsCompiled(g: Grammar): Grammar {
    map n | n in g :: Compiled(g[n])
  }

  lemma {:induction false} CompiledItemOk(item: Item)
    ensures Width(CompiledItem(item)) == Width(item) && ClassesOkItem(CompiledItem(item))
    ensures NamesOkItem(item) ==> NamesOkItem(CompiledItem(item))
    ensures ClassesOkItem(item) ==> CompiledItem(item) == item
    decreases item
  {
    match item
    case Group(body) => CompiledOk(body);
    case Repeat(_, operand) => CompiledItemOk(operand);
    case _ =>
  }

  lemma {:induction false} CompiledSequenceOk(s: Sequence)
    ensures SequenceWidth(CompiledSequence(s)) == SequenceWidth(s) && ClassesOkSequence(CompiledSequence(s))
    ensures NamesOkSequence(s) ==> NamesOkSequence(CompiledSequence(s))
    ensures ClassesOkSequence(s) ==> CompiledSequence(s) == s
    decreases s
  {
    match s
    case Empty =>
    case Then(init, last) =>
      CompiledSequenceOk(init);
      CompiledItemOk(last);
  }

  lemma {:induction false} CompiledOk(a: Alternates)
    ensures AlternatesWidth(Compiled(a)) == AlternatesWidth(a) && ClassesOk(Compiled(a))
    ensures NamesOk(a) ==> NamesOk(Compiled(a))
    ensures ClassesOk(a) ==> Compiled(a) == a
    decreases a
  {
    match a
    case Single(only) => CompiledSequenceOk(only);
    case Or(front, back) =>
      CompiledOk(front);
      CompiledSequenceOk(back);
  }

  lemma {:induction false} CompiledItemLowered(ids: Symbols, rules: Rules, es: seq<Element>, item: Item)
    requires LowersItem(ids, rules, es, item)
    ensures LowersItem(ids, rules, es, CompiledItem(item))
    decreases item
  {
    match item
    case Group(body) =>
      var rule := rules[es[0].id];
      CompiledLowered(ids, rules, rule[..|rule| - 1], body);
    case Repeat(_, operand) =>
      CompiledItemOk(operand);
      CompiledItemLowered(ids, rules, rules[es[0].id][..Width(operand)], operand);
    case _ =>
  }

  lemma {:induction false} CompiledSequenceLowered(ids: Symbols, rules: Rules, es: seq<Element>, s: Sequence)
    requires LowersSequence(ids, rules, es, s)
    ensures LowersSequence(ids, rules, es, CompiledSequence(s))
    decreases s
  {
    match s
    case Empty =>
    case Then(init, last) =>
      var m := SequenceWidth(init);
      CompiledSequenceOk(init);
      CompiledItemOk(last);
      CompiledSequenceLowered(ids, rules, es[..m], init);
      CompiledItemLowered(ids, rules, es[m..], last);
  }

  lemma {:induction false} CompiledLowered(ids: Symbols, rules: Rules, es: seq<Element>, a: Alternates)
    requires LowersAlternates(ids, rules, es, a)
    ensures LowersAlternates(ids, rules, es, Compiled(a))
    decreases a
  {
    match a
    case Single(only) => CompiledSequenceLowered(ids, rules, es, only);
    case Or(front, back) =>
      var m := AlternatesWidth(front);
      CompiledOk(front);
      CompiledSequenceOk(back);
      CompiledLowered(ids, rules, es[..m], front);
      CompiledSequenceLowered(ids, rules, es[m + 1..], back);
  }

  /** A lowering of a grammar is a lowering of what the compiler makes of it. */
  lemma {:induction false} AsCompiledLowered(ids: Symbols, rules: Rules, g: Grammar)
    requires LowersGrammar(ids, rules, g)
    ensures LowersGrammar(ids, rules, AsCompiled(g)) && ClassesNonEmpty(AsCompiled(g))
    ensures ClassesNonEmpty(g) ==> AsCompiled(g) == g
  {
    forall n | n in g
      ensures LowersRule(ids, rules, n, Compiled(g[n])) && ClassesOk(Compiled(g[n]))
      ensures (ClassesOk(g[n]) ==> Compiled(g[n]) == g[n])
    {
      CompiledOk(g[n]);
      var rule := RuleAt(rules, ids[n]);
      CompiledLowered(ids, rules, rule[..|rule| - 1], g[n]);
    }
  }

  /** The lowering preserves the language of every rule, in both directions: that of the
      grammar in which a class that lists nothing reads as nothing, which is the grammar
      itself when every class lists something. */
  lemma LoweringPreservesLanguage(ids: Symbols, rules: Rules, g: Grammar, name: string, w: Word)
    requires LowersGrammar(ids, rules, g) && name in ids && IsUserName(name)
    ensures InSourceLanguage(AsCompiled(g), name, w) <==> InFlatLanguage(rules, ids[name], w)
    ensures ClassesNonEmpty(g) ==> AsCompiled(g) == g
  {
    AsCompiledLowered(ids, rules, g);
    NonEmptyClassesPreserved(ids, rules, AsCompiled(g), name, w);
  }
}
