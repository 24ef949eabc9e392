/** How grammars are spelled: which parts of a text stand for a name, a blank, a character, an
    item and so on, whatever way characters are escaped, blanks and comments chosen and lines
    ended.  A text is read as a grammar exactly when it spells that grammar. */
module GrammarSpelling {
  import opened GrammarText
  import opened GrammarSyntax
  import opened GrammarSource

  // Each predicate is about the text from `p` up to, but not including, `q`.

  // ----- characters -----

  datatype HexSize = Two | Four | Eight
  {
    function Count(): nat { match this case Two => 2 case Four => 4 case Eight => 8 }

    function Mark(): char { match this case Two => 'x' case Four => 'u' case Eight => 'U' }
  }

  /** What a backslash and a sign stand for. */
  predicate IsEscape(sign: char, c: nat) {
    || (sign == 't' && c == 9) || (sign == 'n' && c == 10) || (sign == 'r' && c == 13)
    || (sign == '"' && c == 34) || (sign == '[' && c == 91) || (sign == '\\' && c == 92) || (sign == ']' && c == 93)
  }

  predicate PlainChar(s: Text, p: nat, q: nat, c: nat) {
    IsScalar(c) && c != 92 && q == p + |Utf8(c)| <= |s| && s[p..q] == Utf8(c)
  }

  predicate SignedChar(s: Text, p: nat, q: nat, c: nat) {
    q == p + 2 <= |s| && s[p] == '\\' && IsEscape(s[p + 1], c)
  }

  predicate NumberedChar(s: Text, p: nat, q: nat, c: nat, size: HexSize) {
    q == p + 2 + size.Count() <= |s| && s[p] == '\\' && s[p + 1] == size.Mark() && HexSpells(s, p + 2, size.Count(), c)
  }

  /** A character as itself in UTF-8, as a backslash and a sign, or by its number. */
  ghost predicate SpellsChar(s: Text, p: nat, q: nat, c: nat) {
    PlainChar(s, p, q, c) || SignedChar(s, p, q, c) || exists size :: NumberedChar(s, p, q, c, size)
  }

  /** The rest of a literal, closing quote included. */
  ghost predicate SpellsChars(s: Text, p: nat, q: nat, chars: seq<nat>)
    decreases |chars|
  {
    if chars == [] then At(s, p) == '"' && q == p + 1
    else At(s, p) != '"' && exists m: nat :: SpellsChar(s, p, m, chars[0]) && SpellsChars(s, m, q, chars[1..])
  }

  /** A hyphen here would begin a range; in front of the closing bracket it is a character. */
  predicate RangeAt(s: Text, q: nat) { At(s, q) == '-' && At(s, q + 1) != ']' }

  ghost predicate SpellsClassItem(s: Text, p: nat, q: nat, item: ClassItem) {
    match item
    case One(c) => SpellsChar(s, p, q, c) && !RangeAt(s, q)
    case Span(lo, hi) => exists m: nat :: SpellsChar(s, p, m, lo) && RangeAt(s, m) && SpellsChar(s, m + 1, q, hi)
  }

  /** The rest of a class, closing bracket included. */
  ghost predicate SpellsClass(s: Text, p: nat, q: nat, items: seq<ClassItem>)
    decreases |items|
  {
    if items == [] then At(s, p) == ']' && q == p + 1
    else At(s, p) != ']' && exists m: nat :: SpellsClassItem(s, p, m, items[0]) && SpellsClass(s, m, q, items[1..])
  }

  // ----- names and blanks -----

  /** A name goes on as long as there are word characters. */
  predicate SpellsName(s: Text, p: nat, q: nat, name: string) {
    p < q <= |s| && s[p..q] == name && IsWord(name) && !IsWordChar(At(s, q))
  }

  predicate EndsLine(s: Text, q: nat) { q < |s| && (s[q] == '\n' || s[q] == '\r') }

  /** A blank, a tab, a line end where lines may end, or a comment up to the end of its line. */
  predicate SpellsBlank(s: Text, p: nat, q: nat, newlineOk: bool) {
    && p < q <= |s|
    && (if s[p] == '#' then (q == |s| || EndsLine(s, q)) && forall i :: p < i < q ==> !EndsLine(s, i)
        else q == p + 1 && (s[p] == ' ' || s[p] == '\t' || (newlineOk && EndsLine(s, p))))
  }

  predicate BlankAt(s: Text, p: nat, newlineOk: bool) {
    p < |s| && (s[p] == '#' || s[p] == ' ' || s[p] == '\t' || (newlineOk && EndsLine(s, p)))
  }

  /** Blanks, all there are. */
  ghost predicate SpellsSpace(s: Text, p: nat, q: nat, newlineOk: bool)
    decreases q - p
  {
    if p == q then q <= |s| && !BlankAt(s, q, newlineOk)
    else exists m: nat :: p < m <= q && SpellsBlank(s, p, m, newlineOk) && SpellsSpace(s, m, q, newlineOk)
  }

  // ----- items, sequences and alternates -----

  function OpChar(op: RepeatOp): char {
    match op case Star => '*' case Plus => '+' case Optional => '?'
  }

  /** An item without the blanks behind it.  What is repeated is not an empty literal or class. */
  ghost predicate SpellsToken(s: Text, p: nat, q: nat, item: Item, nested: bool)
    decreases item, 0
  {
    match item
    case Literal(chars) => At(s, p) == '"' && SpellsChars(s, p + 1, q, chars)
    case Class(negated, items) =>
      && At(s, p) == '[' && negated == (At(s, p + 1) == '^')
      && SpellsClass(s, if negated then p + 2 else p + 1, q, items)
    case Reference(name) => SpellsName(s, p, q, name)
    case Group(body) =>
      && At(s, p) == '('
      && exists a: nat, b: nat ::
           && SpellsSpace(s, p + 1, a, true) && SpellsAlternates(s, a, b, body, true)
           && At(s, b) == ')' && q == b + 1
    case Repeat(op, operand) =>
      && operand != Literal([]) && operand != Class(true, []) && operand != Class(false, [])
      && exists a: nat :: SpellsItem(s, p, a, operand, nested) && At(s, a) == OpChar(op) && q == a + 1
  }

  ghost predicate SpellsItem(s: Text, p: nat, q: nat, item: Item, nested: bool)
    decreases item, 1
  {
    exists m: nat :: SpellsToken(s, p, m, item, nested) && SpellsSpace(s, m, q, nested)
  }

  ghost predicate SpellsSequence(s: Text, p: nat, q: nat, x: Sequence, nested: bool)
    decreases x, 1
  {
    match x
    case Empty => p == q <= |s|
    case Then(init, last) => exists m: nat :: SpellsSequence(s, p, m, init, nested) && SpellsItem(s, m, q, last, nested)
  }

  ghost predicate SpellsAlternates(s: Text, p: nat, q: nat, a: Alternates, nested: bool)
    decreases a, 1
  {
    match a
    case Single(only) => SpellsSequence(s, p, q, only, nested)
    case Or(front, back) =>
      exists m: nat, k: nat ::
        && SpellsAlternates(s, p, m, front, nested) && At(s, m) == '|'
        && SpellsSpace(s, m + 1, k, true) && SpellsSequence(s, k, q, back, nested)
  }

  // ----- whole grammars -----

  datatype Rule = Rule(name: string, body: Alternates)

  predicate DefinesAt(s: Text, p: nat) {
    p + 3 <= |s| && s[p] == ':' && s[p + 1] == ':' && s[p + 2] == '='
  }

  ghost predicate SpellsDefinition(s: Text, p: nat, q: nat, body: Alternates) {
    DefinesAt(s, p) && exists m: nat :: SpellsSpace(s, p + 3, m, true) && SpellsAlternates(s, m, q, body, false)
  }

  /** A rule ends with its line, and blank lines and comments follow, or with the text. */
  ghost predicate SpellsRuleEnd(s: Text, p: nat, q: nat) {
    (p == q == |s|) || (EndsLine(s, p) && SpellsSpace(s, p, q, true))
  }

  ghost predicate SpellsRule(s: Text, p: nat, q: nat, r: Rule) {
    exists m: nat, k: nat, e: nat ::
      && SpellsName(s, p, m, r.name) && SpellsSpace(s, m, k, false)
      && SpellsDefinition(s, k, e, r.body) && SpellsRuleEnd(s, e, q)
  }

  ghost predicate SpellsRules(s: Text, p: nat, rules: seq<Rule>)
    decreases |rules|
  {
    if rules == [] then p == |s| else exists q: nat :: SpellsRule(s, p, q, rules[0]) && SpellsRules(s, q, rules[1..])
  }

  /** The text is one of those that the rules can be written as. */
  ghost predicate SpellsGrammar(s: Text, rules: seq<Rule>) {
    exists p: nat :: SpellsSpace(s, 0, p, true) && SpellsRules(s, p, rules)
  }

  /** The grammar that the rules define, later ones of the same name replacing earlier ones. */
  function Defined(rules: seq<Rule>, g: Grammar): Grammar
    decreases |rules|
  {
    if rules == [] then g else Defined(rules[1..], g[rules[0].name := rules[0].body])
  }

  // ----- what is spelled is read: characters -----

  lemma {:induction false} PlainRead(s: Text, p: nat, q: nat, c: nat)
    requires PlainChar(s, p, q, c)
    ensures CharAt(s, p) == Ok((c, q))
  {
    Utf8RoundTrip(s, p, c);
    assert s[p] == s[p..q][0];
    PlainFirst(c);
  }

  lemma PlainFirst(c: nat)
    requires IsScalar(c)
    ensures if c < 128 then Utf8(c) == [c as char] else Utf8(c)[0] as int >= 0xC0
  {
  }

  lemma {:induction false} NumberRead(s: Text, p: nat, q: nat, c: nat, size: HexSize)
    requires NumberedChar(s, p, q, c, size)
    ensures CharAt(s, p) == Ok((c, q))
  {
    HexRoundTrip(s, p + 2, size.Count(), c);
  }

  /** However it is spelled, the character is read, and all of its spelling. */
  lemma {:induction false} CharRead(s: Text, p: nat, q: nat, c: nat)
    requires SpellsChar(s, p, q, c)
    ensures p < q <= |s| && CharAt(s, p) == Ok((c, q))
  {
    if PlainChar(s, p, q, c) {
      PlainRead(s, p, q, c);
    } else if !SignedChar(s, p, q, c) {
      var size :| NumberedChar(s, p, q, c, size);
      NumberRead(s, p, q, c, size);
    }
  }

  lemma {:induction false} CharsRead(s: Text, p: nat, q: nat, chars: seq<nat>, acc: seq<nat>)
    requires p <= |s| && SpellsChars(s, p, q, chars)
    ensures p < q <= |s| && LiteralFrom(s, p, acc) == Ok((acc + chars, q - 1))
    decreases |chars|
  {
    if chars == [] {
      assert acc + chars == acc;
    } else {
      var m: nat :| SpellsChar(s, p, m, chars[0]) && SpellsChars(s, m, q, chars[1..]);
      CharRead(s, p, m, chars[0]);
      CharsRead(s, m, q, chars[1..], acc + [chars[0]]);
      Shift(acc, chars);
    }
  }

  lemma Shift<T>(acc: seq<T>, rest: seq<T>)
    requires rest != []
    ensures acc + [rest[0]] + rest[1..] == acc + rest
  {
  }

  lemma {:induction false} ClassItemRead(s: Text, p: nat, q: nat, item: ClassItem)
    requires p <= |s| && SpellsClassItem(s, p, q, item)
    ensures p < q <= |s| && ClassItemFrom(s, p) == Ok((item, q))
  {
    match item
    case One(c) => CharRead(s, p, q, c);
    case Span(lo, hi) =>
      var m := SpanParts(s, p, q, lo, hi);
      SpanIs(s, p, lo, m, hi, q);
  }

  lemma SpanParts(s: Text, p: nat, q: nat, lo: nat, hi: nat) returns (m: nat)
    requires SpellsClassItem(s, p, q, Span(lo, hi))
    ensures p < m < q <= |s| && CharAt(s, p) == Ok((lo, m)) && RangeAt(s, m) && CharAt(s, m + 1) == Ok((hi, q))
  {
    m :| SpellsChar(s, p, m, lo) && RangeAt(s, m) && SpellsChar(s, m + 1, q, hi);
    TwoCharsRead(s, p, m, lo, m + 1, q, hi);
  }

  lemma TwoCharsRead(s: Text, p: nat, m: nat, c: nat, k: nat, q: nat, d: nat)
    requires SpellsChar(s, p, m, c) && SpellsChar(s, k, q, d)
    ensures p < m <= |s| && k < q <= |s| && CharAt(s, p) == Ok((c, m)) && CharAt(s, k) == Ok((d, q))
  {
    CharRead(s, p, m, c);
    CharRead(s, k, q, d);
  }

  lemma {:induction false} SpanIs(s: Text, p: nat, lo: nat, m: nat, hi: nat, q: nat)
    requires p <= |s| && CharAt(s, p) == Ok((lo, m)) && RangeAt(s, m) && CharAt(s, m + 1) == Ok((hi, q))
    ensures ClassItemFrom(s, p) == Ok((Span(lo, hi), q))
  {
  }

  lemma {:induction false} ClassRead(s: Text, p: nat, q: nat, items: seq<ClassItem>, acc: seq<ClassItem>)
    requires p <= |s| && SpellsClass(s, p, q, items)
    ensures p < q <= |s| && ClassFrom(s, p, acc) == Ok((acc + items, q - 1))
    decreases |items|
  {
    if items == [] {
      assert acc + items == acc;
    } else {
      var m: nat :| SpellsClassItem(s, p, m, items[0]) && SpellsClass(s, m, q, items[1..]);
      ClassItemRead(s, p, m, items[0]);
      ClassRead(s, m, q, items[1..], acc + [items[0]]);
      Shift(acc, items);
    }
  }

  // ----- names and blanks -----

  lemma {:induction false} NameStops(s: Text, p: nat, q: nat)
    requires p <= q <= |s| && !IsWordChar(At(s, q)) && forall i :: p <= i < q ==> IsWordChar(s[i])
    ensures NameEnd(s, p) == q
    decreases q - p
  {
    if p < q { NameStops(s, p + 1, q); }
  }

  lemma {:induction false} NameRead(s: Text, p: nat, q: nat, name: string)
    requires SpellsName(s, p, q, name)
    ensures IsWordChar(s[p]) && NameEnd(s, p) == q
  {
    forall i | p <= i < q ensures IsWordChar(s[i]) { assert s[i] == s[p..q][i - p]; }
    NameStops(s, p, q);
  }

  lemma {:induction false} NameSpelled(s: Text, p: nat)
    requires p < |s| && IsWordChar(s[p])
    ensures SpellsName(s, p, NameEnd(s, p), s[p..NameEnd(s, p)])
  {
    NameIsWord(s, p);
  }

  lemma {:induction false} CommentStops(s: Text, p: nat, q: nat)
    requires p <= q <= |s| && (q == |s| || EndsLine(s, q)) && forall i :: p <= i < q ==> !EndsLine(s, i)
    ensures CommentEnd(s, p) == q
    decreases q - p
  {
    if p < q {
      assert !EndsLine(s, p);
      CommentStops(s, p + 1, q);
    }
  }

  lemma {:induction false} CommentEnds(s: Text, p: nat)
    requires p <= |s|
    ensures var q := CommentEnd(s, p); (q == |s| || EndsLine(s, q)) && forall i :: p <= i < q ==> !EndsLine(s, i)
    decreases |s| - p
  {
    if p < |s| && !IsLineEnd(s[p]) { CommentEnds(s, p + 1); }
  }

  lemma {:induction false} BlankRead(s: Text, p: nat, q: nat, newlineOk: bool)
    requires SpellsBlank(s, p, q, newlineOk)
    ensures SpaceEnd(s, p, newlineOk) == SpaceEnd(s, q, newlineOk)
  {
    if s[p] == '#' { CommentStops(s, p + 1, q); }
  }

  /** Blanks are read as far as they go, and no further. */
  lemma {:induction false} SpaceRead(s: Text, p: nat, q: nat, newlineOk: bool)
    requires p <= |s| && SpellsSpace(s, p, q, newlineOk)
    ensures p <= q <= |s| && SpaceEnd(s, p, newlineOk) == q && !BlankAt(s, q, newlineOk)
    decreases q - p
  {
    if p != q {
      var m: nat :| p < m <= q && SpellsBlank(s, p, m, newlineOk) && SpellsSpace(s, m, q, newlineOk);
      BlankRead(s, p, m, newlineOk);
      SpaceRead(s, m, q, newlineOk);
    }
  }

  lemma {:induction false} SpaceSpelled(s: Text, p: nat, newlineOk: bool)
    requires p <= |s|
    ensures SpellsSpace(s, p, SpaceEnd(s, p, newlineOk), newlineOk)
    decreases |s| - p
  {
    if BlankAt(s, p, newlineOk) {
      var m := if s[p] == '#' then CommentEnd(s, p + 1) else p + 1;
      if s[p] == '#' { CommentEnds(s, p + 1); }
      assert SpellsBlank(s, p, m, newlineOk);
      SpaceSpelled(s, m, newlineOk);
    }
  }

  // ----- items, sequences and alternates -----

  lemma {:induction false} TurnStep(s: Text, p: nat, nested: bool, acc: Sequence, item: Item, q: nat)
    requires p < |s| && StartsItem(s[p]) && ItemFrom(s, p, nested) == Ok((item, q))
    ensures q <= |s| && SequenceFrom(s, p, nested, acc) == SequenceFrom(s, q, nested, Then(acc, item))
  {
    assert !IsRepeatChar(s[p]);
  }

  lemma {:induction false} RepeatStep(s: Text, p: nat, nested: bool, acc: Sequence, op: RepeatOp, operand: Item, q: nat)
    requires p < |s| && s[p] == OpChar(op) && Repeatable(Then(acc, operand)) && q == SpaceEnd(s, p + 1, nested)
    ensures SequenceFrom(s, p, nested, Then(acc, operand)) == SequenceFrom(s, q, nested, Then(acc, Repeat(op, operand)))
  {
    assert TurnFrom(s, p, nested, Then(acc, operand)) == Ok((Then(acc, Repeat(op, operand)), q));
  }

  /** An item adds itself to the sequence read so far. */
  lemma {:induction false} TurnRead(s: Text, p: nat, q: nat, item: Item, nested: bool, acc: Sequence)
    requires p <= |s| && SpellsItem(s, p, q, item, nested)
    ensures p < q <= |s| && SequenceFrom(s, p, nested, acc) == SequenceFrom(s, q, nested, Then(acc, item))
    ensures StartsItem(s[p]) && !BlankAt(s, q, nested)
    decreases item, 3
  {
    var m: nat :| SpellsToken(s, p, m, item, nested) && SpellsSpace(s, m, q, nested);
    if item.Repeat? {
      RepeatRead(s, p, m, q, item.op, item.operand, nested, acc);
    } else {
      TokenRead(s, p, m, q, item, nested);
      TurnStep(s, p, nested, acc, item, q);
      SpaceRead(s, m, q, nested);
    }
  }

  lemma {:induction false} RepeatRead(s: Text, p: nat, m: nat, q: nat, op: RepeatOp, operand: Item, nested: bool,
                                      acc: Sequence)
    requires p <= |s| && SpellsToken(s, p, m, Repeat(op, operand), nested) && SpellsSpace(s, m, q, nested)
    ensures p < q <= |s|
    ensures SequenceFrom(s, p, nested, acc) == SequenceFrom(s, q, nested, Then(acc, Repeat(op, operand)))
    ensures StartsItem(s[p]) && !BlankAt(s, q, nested)
    decreases operand, 4
  {
    var a := OperandOf(s, p, m, op, operand, nested);
    TurnRead(s, p, a, operand, nested, acc);
    SpaceRead(s, m, q, nested);
    RepeatStep(s, a, nested, acc, op, operand, q);
  }

  lemma OperandOf(s: Text, p: nat, m: nat, op: RepeatOp, operand: Item, nested: bool) returns (a: nat)
    requires SpellsToken(s, p, m, Repeat(op, operand), nested)
    ensures SpellsItem(s, p, a, operand, nested) && At(s, a) == OpChar(op) && m == a + 1 <= |s|
    ensures forall acc :: Repeatable(Then(acc, operand))
  {
    a :| SpellsItem(s, p, a, operand, nested) && At(s, a) == OpChar(op) && m == a + 1;
  }

  lemma {:induction false} TokenRead(s: Text, p: nat, m: nat, q: nat, item: Item, nested: bool)
    requires p <= |s| && !item.Repeat? && SpellsToken(s, p, m, item, nested) && SpellsSpace(s, m, q, nested)
    ensures p < m <= q <= |s| && StartsItem(s[p]) && ItemFrom(s, p, nested) == Ok((item, q))
    decreases item, 2
  {
    match item
    case Literal(chars) => LiteralRead(s, p, m, q, chars, nested);
    case Class(negated, items) => ClassItemIs(s, p, m, q, negated, items, nested);
    case Reference(name) => ReferenceRead(s, p, m, q, name, nested);
    case Group(body) => GroupRead(s, p, m, q, body, nested);
  }

  lemma {:induction false} LiteralRead(s: Text, p: nat, m: nat, q: nat, chars: seq<nat>, nested: bool)
    requires p <= |s| && At(s, p) == '"' && SpellsChars(s, p + 1, m, chars) && SpellsSpace(s, m, q, nested)
    ensures p < m <= q <= |s| && s[p] == '"' && ItemFrom(s, p, nested) == Ok((Literal(chars), q))
  {
    CharsRead(s, p + 1, m, chars, []);
    SpaceRead(s, m, q, nested);
    assert [] + chars == chars;
    LiteralIs(s, p, m, q, chars, nested);
  }

  lemma {:induction false} LiteralIs(s: Text, p: nat, m: nat, q: nat, chars: seq<nat>, nested: bool)
    requires p < |s| && s[p] == '"' && p + 1 < m <= |s| && LiteralFrom(s, p + 1, []) == Ok((chars, m - 1))
    requires SpaceEnd(s, m, nested) == q
    ensures ItemFrom(s, p, nested) == Ok((Literal(chars), q))
  {
  }

  lemma {:induction false} ClassItemIs(s: Text, p: nat, m: nat, q: nat, negated: bool, items: seq<ClassItem>,
                                       nested: bool)
    requires p <= |s| && At(s, p) == '[' && negated == (At(s, p + 1) == '^') && SpellsSpace(s, m, q, nested)
    requires SpellsClass(s, if negated then p + 2 else p + 1, m, items)
    ensures p < m <= q <= |s| && s[p] == '[' && ItemFrom(s, p, nested) == Ok((Class(negated, items), q))
  {
    ClassRead(s, ClassStart(s, p), m, items, []);
    SpaceRead(s, m, q, nested);
    assert [] + items == items;
    ClassIs(s, p, m, q, negated, items, nested);
  }

  lemma {:induction false} ClassIs(s: Text, p: nat, m: nat, q: nat, negated: bool, items: seq<ClassItem>, nested: bool)
    requires p < |s| && s[p] == '[' && negated == (At(s, p + 1) == '^') && ClassStart(s, p) < m <= |s|
    requires ClassFrom(s, ClassStart(s, p), []) == Ok((items, m - 1)) && SpaceEnd(s, m, nested) == q
    ensures ItemFrom(s, p, nested) == Ok((Class(negated, items), q))
  {
  }

  lemma {:induction false} ReferenceRead(s: Text, p: nat, m: nat, q: nat, name: string, nested: bool)
    requires SpellsName(s, p, m, name) && SpellsSpace(s, m, q, nested)
    ensures p < m <= q <= |s| && IsWordChar(s[p]) && ItemFrom(s, p, nested) == Ok((Reference(name), q))
  {
    NameRead(s, p, m, name);
    SpaceRead(s, m, q, nested);
  }

  lemma {:induction false} GroupRead(s: Text, p: nat, m: nat, q: nat, body: Alternates, nested: bool)
    requires p <= |s| && SpellsToken(s, p, m, Group(body), nested) && SpellsSpace(s, m, q, nested)
    ensures p < m <= q <= |s| && s[p] == '(' && ItemFrom(s, p, nested) == Ok((Group(body), q))
    decreases body, 7
  {
    var a, b := BodyOf(s, p, m, body, nested);
    SpaceRead(s, p + 1, a, true);
    AlternatesRead(s, a, b, body, true);
    SpaceRead(s, m, q, nested);
    GroupIs(s, p, a, b, q, body, nested);
  }

  lemma BodyOf(s: Text, p: nat, m: nat, body: Alternates, nested: bool) returns (a: nat, b: nat)
    requires SpellsToken(s, p, m, Group(body), nested)
    ensures At(s, p) == '(' && SpellsSpace(s, p + 1, a, true) && SpellsAlternates(s, a, b, body, true)
    ensures At(s, b) == ')' && m == b + 1
  {
    a, b :| SpellsSpace(s, p + 1, a, true) && SpellsAlternates(s, a, b, body, true) && At(s, b) == ')' && m == b + 1;
  }

  lemma {:induction false} GroupIs(s: Text, p: nat, a: nat, b: nat, q: nat, body: Alternates, nested: bool)
    requires p < a <= b < |s| && s[p] == '(' && SpaceEnd(s, p + 1, true) == a && s[b] == ')'
    requires AlternatesFrom(s, a, true) == AlternatesTail(s, b, true, body) && SpaceEnd(s, b + 1, nested) == q
    ensures ItemFrom(s, p, nested) == Ok((Group(body), q))
  {
    assert AlternatesTail(s, b, true, body) == Ok((body, b));
    assert GroupItem(s, p, nested) == Ok((Group(body), q));
  }

  lemma {:induction false} SequenceRead(s: Text, p: nat, q: nat, x: Sequence, nested: bool)
    requires p <= |s| && SpellsSequence(s, p, q, x, nested)
    ensures p <= q <= |s| && SequenceFrom(s, p, nested, Empty) == SequenceFrom(s, q, nested, x)
    decreases x, 4
  {
    match x
    case Empty =>
    case Then(init, last) =>
      var m: nat :| SpellsSequence(s, p, m, init, nested) && SpellsItem(s, m, q, last, nested);
      SequenceRead(s, p, m, init, nested);
      TurnRead(s, m, q, last, nested, init);
  }

  /** No item and no repetition begins here. */
  predicate Stops(s: Text, q: nat) { q == |s| || (q < |s| && !StartsTurn(s[q])) }

  lemma {:induction false} SequenceWhole(s: Text, p: nat, q: nat, x: Sequence, nested: bool)
    requires p <= |s| && SpellsSequence(s, p, q, x, nested) && Stops(s, q)
    ensures p <= q <= |s| && SequenceFrom(s, p, nested, Empty) == Ok((x, q))
    decreases x, 5
  {
    SequenceRead(s, p, q, x, nested);
  }

  /** Alternates are read whole, wherever they stand in a text. */
  lemma {:induction false} AlternatesRead(s: Text, p: nat, q: nat, a: Alternates, nested: bool)
    requires p <= |s| && SpellsAlternates(s, p, q, a, nested) && Stops(s, q)
    ensures p <= q <= |s| && AlternatesFrom(s, p, nested) == AlternatesTail(s, q, nested, a)
    decreases a, 6
  {
    match a
    case Single(only) =>
      SequenceWhole(s, p, q, only, nested);
    case Or(front, back) =>
      var m, k := FrontAndBack(s, p, q, front, back, nested);
      AlternatesRead(s, p, m, front, nested);
      SpaceRead(s, m + 1, k, true);
      SequenceWhole(s, k, q, back, nested);
      TailStep(s, m, k, q, front, back, nested);
  }

  lemma FrontAndBack(s: Text, p: nat, q: nat, front: Alternates, back: Sequence, nested: bool) returns (m: nat, k: nat)
    requires SpellsAlternates(s, p, q, Or(front, back), nested)
    ensures SpellsAlternates(s, p, m, front, nested) && At(s, m) == '|' && Stops(s, m)
    ensures SpellsSpace(s, m + 1, k, true) && SpellsSequence(s, k, q, back, nested)
  {
    m, k :| SpellsAlternates(s, p, m, front, nested) && At(s, m) == '|' && SpellsSpace(s, m + 1, k, true)
            && SpellsSequence(s, k, q, back, nested);
  }

  lemma {:induction false} TailStep(s: Text, m: nat, k: nat, q: nat, front: Alternates, back: Sequence, nested: bool)
    requires m < k <= q <= |s| && s[m] == '|' && SpaceEnd(s, m + 1, true) == k
    requires SequenceFrom(s, k, nested, Empty) == Ok((back, q))
    ensures AlternatesTail(s, m, nested, front) == AlternatesTail(s, q, nested, Or(front, back))
  {
  }

  // ----- whole grammars -----

  lemma {:induction false} DefinitionRead(s: Text, p: nat, q: nat, body: Alternates)
    requires p <= |s| && SpellsDefinition(s, p, q, body) && (q == |s| || EndsLine(s, q))
    ensures p + 3 <= q <= |s| && SpaceEnd(s, p, false) == p
    ensures DefinesAt(s, p) && AlternatesFrom(s, SpaceEnd(s, p + 3, true), false) == Ok((body, q))
  {
    var m: nat :| SpellsSpace(s, p + 3, m, true) && SpellsAlternates(s, m, q, body, false);
    SpaceRead(s, p + 3, m, true);
    AlternatesRead(s, m, q, body, false);
    assert AlternatesTail(s, q, false, body) == Ok((body, q));
  }

  lemma {:induction false} RuleEndRead(s: Text, p: nat, q: nat)
    requires p <= |s| && SpellsRuleEnd(s, p, q)
    ensures p <= q <= |s| && RuleEnd(s, p) == Ok(q)
  {
    if p != |s| { SpaceRead(s, p, q, true); }
  }

  lemma {:induction false} RuleRead(s: Text, p: nat, q: nat, r: Rule)
    requires SpellsRule(s, p, q, r)
    ensures p < q <= |s| && RuleFrom(s, p) == Ok((r.name, r.body, q))
  {
    var m, k, e := RuleParts(s, p, q, r);
    NameRead(s, p, m, r.name);
    SpaceRead(s, m, k, false);
    DefinitionRead(s, k, e, r.body);
    RuleEndRead(s, e, q);
    DefinitionIs(s, k, r.body, e, q);
    assert RuleFrom(s, p) == Ok((s[p..m], r.body, q));
  }

  lemma {:induction false} DefinitionIs(s: Text, k: nat, body: Alternates, e: nat, q: nat)
    requires k <= |s| && DefinesAt(s, k) && AlternatesFrom(s, SpaceEnd(s, k + 3, true), false) == Ok((body, e))
    requires RuleEnd(s, e) == Ok(q)
    ensures DefinitionFrom(s, k) == Ok((body, q))
  {
  }

  lemma RuleParts(s: Text, p: nat, q: nat, r: Rule) returns (m: nat, k: nat, e: nat)
    requires SpellsRule(s, p, q, r)
    ensures SpellsName(s, p, m, r.name) && SpellsSpace(s, m, k, false) && SpellsDefinition(s, k, e, r.body)
    ensures SpellsRuleEnd(s, e, q)
  {
    m, k, e :| SpellsName(s, p, m, r.name) && SpellsSpace(s, m, k, false) && SpellsDefinition(s, k, e, r.body)
               && SpellsRuleEnd(s, e, q);
  }

  lemma {:induction false} RulesRead(s: Text, p: nat, rules: seq<Rule>, g: Grammar)
    requires p <= |s| && SpellsRules(s, p, rules)
    ensures RulesFrom(s, p, g) == Ok(Defined(rules, g))
    decreases |rules|
  {
    if rules != [] {
      var q: nat :| SpellsRule(s, p, q, rules[0]) && SpellsRules(s, q, rules[1..]);
      RuleRead(s, p, q, rules[0]);
      RulesRead(s, q, rules[1..], g[rules[0].name := rules[0].body]);
      RulesStep(s, p, rules[0], q, g);
    }
  }

  lemma {:induction false} RulesStep(s: Text, p: nat, r: Rule, q: nat, g: Grammar)
    requires p < |s| && RuleFrom(s, p) == Ok((r.name, r.body, q))
    ensures RulesFrom(s, p, g) == RulesFrom(s, q, g[r.name := r.body])
  {
  }

  /** A text that spells rules, in whatever way, is read as the grammar that the rules define. */
  lemma {:induction false} SpelledIsRead(s: Text, rules: seq<Rule>)
    requires SpellsGrammar(s, rules)
    ensures GrammarOf(s) == Ok(Defined(rules, map[]))
  {
    var p: nat :| SpellsSpace(s, 0, p, true) && SpellsRules(s, p, rules);
    SpaceRead(s, 0, p, true);
    RulesRead(s, p, rules, map[]);
  }

  // ----- an empty last alternate in front of another rule -----

  /** Blanks and a name `name` in front of `c`, and `::=`, begin a rule; its alternates so far end
      in front of `c`, where an alternate is to begin. */
  ghost predicate OpensAlternate(s: Text, p: nat, c: nat, name: string, front: seq<Alternates>) {
    exists m: nat, k: nat, b: nat ::
      && SpellsName(s, p, m, name) && SpellsSpace(s, m, k, false) && DefinesAt(s, k) && SpellsSpace(s, k + 3, b, true)
      && OpensFrom(s, b, c, front)
  }

  ghost predicate OpensFrom(s: Text, b: nat, c: nat, front: seq<Alternates>) {
    if front == [] then b == c
    else
      |front| == 1 &&
      exists e: nat :: SpellsAlternates(s, b, e, front[0], false) && At(s, e) == '|' && SpellsSpace(s, e + 1, c, true)
  }

  /** Line ends count as space after `::=` and `|`, so an empty last alternate takes in the next
      rule: its name becomes a reference, and its `::=` an error. */
  lemma {:induction false} NextRulePulledIn(s: Text, p: nat, c: nat, d: nat, f: nat, name: string,
                                            front: seq<Alternates>, next: string)
    requires OpensAlternate(s, p, c, name, front)
    requires SpellsName(s, c, d, next) && SpellsSpace(s, d, f, false) && At(s, f) == ':'
    ensures RuleFrom(s, p) == Err(ExpectingNewline)
  {
    var m, k, b := RuleOpens(s, p, c, name, front);
    NameRead(s, p, m, name);
    SpaceRead(s, m, k, false);
    SpaceRead(s, k + 3, b, true);
    PulledIn(s, b, c, d, f, front, next);
    NoLineEndAt(s, k, b, f);
  }

  lemma RuleOpens(s: Text, p: nat, c: nat, name: string, front: seq<Alternates>) returns (m: nat, k: nat, b: nat)
    requires OpensAlternate(s, p, c, name, front)
    ensures SpellsName(s, p, m, name) && SpellsSpace(s, m, k, false) && DefinesAt(s, k)
    ensures SpellsSpace(s, k + 3, b, true) && OpensFrom(s, b, c, front)
  {
    m, k, b :|
      && SpellsName(s, p, m, name) && SpellsSpace(s, m, k, false) && DefinesAt(s, k) && SpellsSpace(s, k + 3, b, true)
      && OpensFrom(s, b, c, front);
  }

  lemma {:induction false} NoLineEndAt(s: Text, k: nat, b: nat, f: nat)
    requires DefinesAt(s, k) && SpaceEnd(s, k + 3, true) == b && f < |s| && s[f] == ':'
    requires AlternatesFrom(s, b, false).Ok? && AlternatesFrom(s, b, false).value.1 == f
    ensures DefinitionFrom(s, k) == Err(ExpectingNewline)
  {
  }

  lemma {:induction false} PulledIn(s: Text, b: nat, c: nat, d: nat, f: nat, front: seq<Alternates>, next: string)
    requires b <= |s| && OpensFrom(s, b, c, front)
    requires SpellsName(s, c, d, next) && SpellsSpace(s, d, f, false) && At(s, f) == ':'
    ensures f < |s| && s[f] == ':' && AlternatesFrom(s, b, false).Ok? && AlternatesFrom(s, b, false).value.1 == f
  {
    ReferenceRead(s, c, d, f, next, false);
    TurnStep(s, c, false, Empty, Reference(next), f);
    var back := Then(Empty, Reference(next));
    assert SequenceFrom(s, c, false, Empty) == SequenceFrom(s, f, false, back) == Ok((back, f));
    if front != [] {
      var e: nat :| SpellsAlternates(s, b, e, front[0], false) && At(s, e) == '|' && SpellsSpace(s, e + 1, c, true);
      AlternatesRead(s, b, e, front[0], false);
      SpaceRead(s, e + 1, c, true);
      TailStep(s, e, c, f, front[0], back, false);
    }
  }

  // ----- what is read is spelled -----

  predicate Continuation(c: char) { 0x80 <= c as int < 0xC0 }

  /** A character of the text, or its end, is at `p`. */
  predicate Boundary(s: Text, p: nat) { p <= |s| && (p == |s| || !Continuation(s[p])) }

  predicate EncodedAt(s: Text, p: nat, c: nat) {
    IsScalar(c) && p + |Utf8(c)| <= |s| && s[p..p + |Utf8(c)|] == Utf8(c) && Boundary(s, p + |Utf8(c)|)
  }

  ghost predicate CharacterAt(s: Text, p: nat) { exists c :: EncodedAt(s, p, c) }

  /** Every byte that is not a continuation begins the encoding of a character. */
  ghost predicate Utf8Text(s: Text) {
    forall p {:trigger CharacterAt(s, p)} :: 0 <= p < |s| && !Continuation(s[p]) ==> CharacterAt(s, p)
  }

  predicate AllScalar(cs: seq<nat>) { forall i :: 0 <= i < |cs| ==> IsScalar(cs[i]) }

  function Encoded(cs: seq<nat>): Text
    requires AllScalar(cs)
  {
    if cs == [] then [] else Utf8(cs[0]) + Encoded(cs[1..])
  }

  lemma BytesOf(c: nat)
    requires IsScalar(c)
    ensures var u := Utf8(c); u != [] && !Continuation(u[0]) && forall i :: 0 < i < |u| ==> Continuation(u[i])
  {
  }

  lemma {:induction false} StartsCharacter(cs: seq<nat>)
    requires AllScalar(cs)
    ensures Boundary(Encoded(cs), 0)
  {
    if cs != [] {
      BytesOf(cs[0]);
      assert Encoded(cs)[0] == Utf8(cs[0])[0];
    }
  }

  /** The encoding of any characters is such a text. */
  lemma {:induction false} EncodedIsText(cs: seq<nat>)
    requires AllScalar(cs)
    ensures Utf8Text(Encoded(cs))
    decreases |cs|
  {
    if cs != [] {
      EncodedIsText(cs[1..]);
      StartsCharacter(cs[1..]);
      OneMoreCharacter(cs[0], Encoded(cs[1..]));
    }
  }

  lemma {:induction false} OneMoreCharacter(d: nat, t: Text)
    requires IsScalar(d) && Utf8Text(t) && Boundary(t, 0)
    ensures Utf8Text(Utf8(d) + t)
  {
    var u := Utf8(d);
    var s: Text := u + t;
    BytesOf(d);
    forall p | 0 <= p < |s| && !Continuation(s[p]) ensures CharacterAt(s, p) { CharacterStill(d, t, p); }
  }

  lemma {:induction false} CharacterStill(d: nat, t: Text, p: nat)
    requires IsScalar(d) && Utf8Text(t) && Boundary(t, 0)
    requires p < |Utf8(d) + t| && !Continuation((Utf8(d) + t)[p])
    ensures CharacterAt(Utf8(d) + t, p)
  {
    var u := Utf8(d);
    BytesOf(d);
    if p < |u| {
      assert (u + t)[p] == u[p];
      FirstEncoded(u, t, d);
    } else {
      assert (u + t)[p] == t[p - |u|] && CharacterAt(t, p - |u|);
      var c :| EncodedAt(t, p - |u|, c);
      EncodedLater(u, t, p - |u|, c);
    }
  }

  lemma FirstEncoded(u: Text, t: Text, d: nat)
    requires IsScalar(d) && u == Utf8(d) && Boundary(t, 0)
    ensures EncodedAt(u + t, 0, d)
  {
    assert (u + t)[0..|u|] == u;
    if t != [] { assert (u + t)[|u|] == t[0]; }
  }

  lemma EncodedLater(u: Text, t: Text, p: nat, c: nat)
    requires EncodedAt(t, p, c)
    ensures EncodedAt(u + t, |u| + p, c)
  {
    var n := |Utf8(c)|;
    if p + n < |t| { assert (u + t)[|u| + p + n] == t[p + n]; }
    assert (u + t)[|u| + p..|u| + p + n] == t[p..p + n];
  }

  lemma {:induction false} AsciiNext(s: Text, k: nat)
    requires Utf8Text(s) && k < |s| && s[k] as int < 0x80
    ensures Boundary(s, k + 1)
  {
    assert CharacterAt(s, k);
    var c :| EncodedAt(s, k, c);
    assert s[k] == s[k..k + |Utf8(c)|][0];
    PlainFirst(c);
  }

  lemma {:induction false} PlainSpelled(s: Text, p: nat, c: nat, q: nat)
    requires Utf8Text(s) && Boundary(s, p) && p < |s| && s[p] != '\\' && CharAt(s, p) == Ok((c, q))
    ensures SpellsChar(s, p, q, c) && Boundary(s, q)
  {
    assert CharacterAt(s, p);
    var d :| EncodedAt(s, p, d);
    var e := p + |Utf8(d)|;
    IsPlain(s, p, e, d);
    PlainRead(s, p, e, d);
  }

  lemma IsPlain(s: Text, p: nat, e: nat, d: nat)
    requires EncodedAt(s, p, d) && e == p + |Utf8(d)| && p < |s| && s[p] != '\\'
    ensures PlainChar(s, p, e, d) && Boundary(s, e)
  {
    assert s[p] == s[p..e][0];
    PlainFirst(d);
  }

  lemma {:induction false} NumberSpelled(s: Text, p: nat, c: nat, q: nat, size: HexSize)
    requires Utf8Text(s) && p + 1 < |s| && s[p] == '\\' && s[p + 1] == size.Mark() && CharAt(s, p) == Ok((c, q))
    ensures NumberedChar(s, p, q, c, size) && Boundary(s, q)
  {
    var n := size.Count();
    HexRoundTrip(s, p + 2, n, c);
    HexAmong(s, p + 2, n, n - 1);
    AsciiNext(s, q - 1);
  }

  lemma {:induction false} CharSpelled(s: Text, p: nat, c: nat, q: nat)
    requires Utf8Text(s) && Boundary(s, p) && CharAt(s, p) == Ok((c, q))
    ensures p < q <= |s| && SpellsChar(s, p, q, c) && Boundary(s, q)
  {
    if s[p] != '\\' {
      PlainSpelled(s, p, c, q);
    } else if At(s, p + 1) == 'x' {
      NumberSpelled(s, p, c, q, Two);
    } else if At(s, p + 1) == 'u' {
      NumberSpelled(s, p, c, q, Four);
    } else if At(s, p + 1) == 'U' {
      NumberSpelled(s, p, c, q, Eight);
    } else {
      assert SignedChar(s, p, q, c);
      AsciiNext(s, p + 1);
    }
  }

  lemma {:induction false} CharsSpelled(s: Text, p: nat, acc: seq<nat>, all: seq<nat>, e: nat) returns (chars: seq<nat>)
    requires Utf8Text(s) && Boundary(s, p) && LiteralFrom(s, p, acc) == Ok((all, e))
    ensures all == acc + chars && SpellsChars(s, p, e + 1, chars)
    decreases |s| - p
  {
    if At(s, p) == '"' {
      chars := [];
    } else {
      var c, q := LiteralGoesOn(s, p, acc, all, e);
      var rest := CharsSpelled(s, q, acc + [c], all, e);
      chars := [c] + rest;
      FirstSpelled(s, p, q, e + 1, acc, c, rest);
    }
  }

  lemma {:induction false} LiteralGoesOn(s: Text, p: nat, acc: seq<nat>, all: seq<nat>, e: nat) returns (c: nat, q: nat)
    requires Utf8Text(s) && Boundary(s, p) && LiteralFrom(s, p, acc) == Ok((all, e)) && At(s, p) != '"'
    ensures p < q && CharAt(s, p) == Ok((c, q)) && Boundary(s, q) && LiteralFrom(s, q, acc + [c]) == Ok((all, e))
  {
    c, q := CharAt(s, p).value.0, CharAt(s, p).value.1;
    CharSpelled(s, p, c, q);
  }

  lemma FirstSpelled(s: Text, p: nat, q: nat, e: nat, acc: seq<nat>, c: nat, rest: seq<nat>)
    requires Utf8Text(s) && Boundary(s, p) && At(s, p) != '"' && CharAt(s, p) == Ok((c, q))
    requires SpellsChars(s, q, e, rest)
    ensures SpellsChars(s, p, e, [c] + rest) && acc + [c] + rest == acc + ([c] + rest)
  {
    CharSpelled(s, p, c, q);
    assert ([c] + rest)[1..] == rest;
  }

  lemma {:induction false} ClassItemSpelled(s: Text, p: nat, item: ClassItem, q: nat)
    requires Utf8Text(s) && Boundary(s, p) && ClassItemFrom(s, p) == Ok((item, q))
    ensures SpellsClassItem(s, p, q, item) && Boundary(s, q)
  {
    match item
    case One(c) => CharSpelled(s, p, c, q);
    case Span(lo, hi) =>
      var m := SpanOf(s, p, lo, hi, q);
      SpanSpelled(s, p, m, lo, hi, q);
  }

  lemma {:induction false} SpanSpelled(s: Text, p: nat, m: nat, lo: nat, hi: nat, q: nat)
    requires Utf8Text(s) && Boundary(s, p)
    requires CharAt(s, p) == Ok((lo, m)) && m < |s| && RangeAt(s, m) && CharAt(s, m + 1) == Ok((hi, q))
    ensures SpellsClassItem(s, p, q, Span(lo, hi)) && Boundary(s, q)
  {
    CharSpelled(s, p, lo, m);
    AsciiNext(s, m);
    CharSpelled(s, m + 1, hi, q);
  }

  lemma SpanOf(s: Text, p: nat, lo: nat, hi: nat, q: nat) returns (m: nat)
    requires p <= |s| && ClassItemFrom(s, p) == Ok((Span(lo, hi), q))
    ensures CharAt(s, p) == Ok((lo, m)) && m < |s| && RangeAt(s, m) && CharAt(s, m + 1) == Ok((hi, q))
  {
    m := CharAt(s, p).value.1;
  }

  lemma {:induction false} ClassSpelled(s: Text, p: nat, acc: seq<ClassItem>, all: seq<ClassItem>, e: nat)
    requires Utf8Text(s) && Boundary(s, p) && ClassFrom(s, p, acc) == Ok((all, e))
    ensures |acc| <= |all| && all[..|acc|] == acc && SpellsClass(s, p, e + 1, all[|acc|..])
    decreases |s| - p
  {
    if At(s, p) == ']' {
      NoItemLeft(acc);
    } else {
      var item, q := ClassGoesOn(s, p, acc, all, e);
      var acc' := acc + [item];
      ClassSpelled(s, q, acc', all, e);
      ItemAmong(acc, item, all);
      FirstItemSpelled(s, p, q, e + 1, |acc|, all);
    }
  }

  lemma NoItemLeft(all: seq<ClassItem>)
    ensures all[..|all|] == all && all[|all|..] == []
  {
  }

  lemma ItemAmong(acc: seq<ClassItem>, item: ClassItem, all: seq<ClassItem>)
    requires |acc + [item]| <= |all| && all[..|acc + [item]|] == acc + [item]
    ensures |acc| < |all| && all[..|acc|] == acc && all[|acc|] == item && |acc + [item]| == |acc| + 1
  {
    assert all[|acc|] == all[..|acc| + 1][|acc|];
    assert all[..|acc|] == all[..|acc| + 1][..|acc|];
  }

  lemma {:induction false} ClassGoesOn(s: Text, p: nat, acc: seq<ClassItem>, all: seq<ClassItem>, e: nat)
    returns (item: ClassItem, q: nat)
    requires Utf8Text(s) && Boundary(s, p) && ClassFrom(s, p, acc) == Ok((all, e)) && At(s, p) != ']'
    ensures p < q && ClassItemFrom(s, p) == Ok((item, q)) && Boundary(s, q)
    ensures ClassFrom(s, q, acc + [item]) == Ok((all, e))
  {
    item, q := ClassItemFrom(s, p).value.0, ClassItemFrom(s, p).value.1;
    ClassItemSpelled(s, p, item, q);
  }

  lemma FirstItemSpelled(s: Text, p: nat, q: nat, e: nat, n: nat, all: seq<ClassItem>)
    requires Utf8Text(s) && Boundary(s, p) && At(s, p) != ']' && n < |all| && ClassItemFrom(s, p) == Ok((all[n], q))
    requires SpellsClass(s, q, e, all[n + 1..])
    ensures SpellsClass(s, p, e, all[n..])
  {
    ClassItemSpelled(s, p, all[n], q);
    assert all[n..][1..] == all[n + 1..];
  }

  lemma {:induction false} LiteralSpelled(s: Text, p: nat, nested: bool, item: Item, q: nat)
    requires Utf8Text(s) && p < |s| && s[p] == '"' && LiteralItem(s, p, nested) == Ok((item, q))
    ensures SpellsItem(s, p, q, item, nested)
  {
    var e := LiteralParts(s, p, nested, item, q);
    LiteralTokenSpelled(s, p, nested, item.chars, e);
    ItemBySpace(s, p, e + 1, item, nested);
  }

  lemma LiteralParts(s: Text, p: nat, nested: bool, item: Item, q: nat) returns (e: nat)
    requires p < |s| && LiteralItem(s, p, nested) == Ok((item, q))
    ensures item.Literal? && e < |s| && q == SpaceEnd(s, e + 1, nested)
    ensures LiteralFrom(s, p + 1, []) == Ok((item.chars, e))
  {
    e := LiteralFrom(s, p + 1, []).value.1;
  }

  lemma {:induction false} LiteralTokenSpelled(s: Text, p: nat, nested: bool, all: seq<nat>, e: nat)
    requires Utf8Text(s) && p < |s| && s[p] == '"' && LiteralFrom(s, p + 1, []) == Ok((all, e))
    ensures SpellsToken(s, p, e + 1, Literal(all), nested)
  {
    AsciiNext(s, p);
    var chars := CharsSpelled(s, p + 1, [], all, e);
    assert [] + chars == chars;
  }

  lemma ItemBySpace(s: Text, p: nat, m: nat, item: Item, nested: bool)
    requires m <= |s| && SpellsToken(s, p, m, item, nested)
    ensures SpellsItem(s, p, SpaceEnd(s, m, nested), item, nested)
  {
    SpaceSpelled(s, m, nested);
  }

  lemma {:induction false} ClassAtSpelled(s: Text, p: nat, nested: bool, item: Item, q: nat)
    requires Utf8Text(s) && p < |s| && s[p] == '[' && ClassAt(s, p, nested) == Ok((item, q))
    ensures SpellsItem(s, p, q, item, nested)
  {
    var m := ClassTokenAt(s, p, nested, item, q);
    ItemBySpace(s, p, m, item, nested);
  }

  lemma {:induction false} ClassTokenAt(s: Text, p: nat, nested: bool, item: Item, q: nat) returns (m: nat)
    requires Utf8Text(s) && p < |s| && s[p] == '[' && ClassAt(s, p, nested) == Ok((item, q))
    ensures m <= |s| && SpellsToken(s, p, m, item, nested) && q == SpaceEnd(s, m, nested)
  {
    var e := ClassParts(s, p, nested, item, q);
    m := e + 1;
    ClassTokenSpelled(s, p, nested, item, e);
  }

  lemma ClassParts(s: Text, p: nat, nested: bool, item: Item, q: nat) returns (e: nat)
    requires p < |s| && ClassAt(s, p, nested) == Ok((item, q))
    ensures item.Class? && item.negated == (At(s, p + 1) == '^') && e < |s| && q == SpaceEnd(s, e + 1, nested)
    ensures ClassFrom(s, ClassStart(s, p), []) == Ok((item.items, e))
  {
    e := ClassFrom(s, ClassStart(s, p), []).value.1;
  }

  lemma {:induction false} ClassTokenSpelled(s: Text, p: nat, nested: bool, item: Item, e: nat)
    requires Utf8Text(s) && p < |s| && s[p] == '[' && item.Class? && item.negated == (At(s, p + 1) == '^')
    requires ClassFrom(s, ClassStart(s, p), []) == Ok((item.items, e))
    ensures SpellsToken(s, p, e + 1, item, nested)
  {
    AsciiNext(s, ClassStart(s, p) - 1);
    ClassSpelled(s, ClassStart(s, p), [], item.items, e);
    assert item.items[0..] == item.items;
  }

  lemma {:induction false} ReferenceSpelled(s: Text, p: nat, nested: bool)
    requires p < |s| && IsWordChar(s[p])
    ensures var r := ReferenceItem(s, p, nested); SpellsItem(s, p, r.1, r.0, nested)
  {
    var e := NameEnd(s, p);
    NameSpelled(s, p);
    SpaceSpelled(s, e, nested);
    assert SpellsToken(s, p, e, Reference(s[p..e]), nested);
  }

  lemma {:induction false} GroupSpelled(s: Text, p: nat, nested: bool, item: Item, q: nat)
    requires Utf8Text(s) && p < |s| && s[p] == '(' && GroupItem(s, p, nested) == Ok((item, q))
    ensures SpellsItem(s, p, q, item, nested)
    decreases |s| - p, 0
  {
    var a := SpaceEnd(s, p + 1, true);
    var (body, b) := AlternatesFrom(s, a, true).value;
    SpaceSpelled(s, p + 1, true);
    AlternatesSpelled(s, a, true, body, b);
    SpaceSpelled(s, b + 1, nested);
    assert SpellsToken(s, p, b + 1, Group(body), nested);
  }

  lemma {:induction false} ItemSpelled(s: Text, p: nat, nested: bool, item: Item, q: nat)
    requires Utf8Text(s) && p < |s| && StartsItem(s[p]) && ItemFrom(s, p, nested) == Ok((item, q))
    ensures SpellsItem(s, p, q, item, nested)
    decreases |s| - p, 1
  {
    if s[p] == '"' {
      LiteralSpelled(s, p, nested, item, q);
    } else if s[p] == '[' {
      ClassAtSpelled(s, p, nested, item, q);
    } else if s[p] == '(' {
      GroupSpelled(s, p, nested, item, q);
    } else {
      ReferenceSpelled(s, p, nested);
    }
  }

  lemma {:induction false} RepeatSpelled(s: Text, p0: nat, p: nat, nested: bool, acc: Sequence, x: Sequence, q: nat)
    requires p < |s| && IsRepeatChar(s[p]) && SpellsSequence(s, p0, p, acc, nested)
    requires RepeatFrom(s, p, nested, acc) == Ok((x, q))
    ensures SpellsSequence(s, p0, q, x, nested)
  {
    var m: nat :| SpellsSequence(s, p0, m, acc.init, nested) && SpellsItem(s, m, p, acc.last, nested);
    SpaceSpelled(s, p + 1, nested);
    assert SpellsToken(s, m, p + 1, x.last, nested);
    assert SpellsItem(s, m, q, x.last, nested);
  }

  lemma {:induction false} TurnSpelled(s: Text, p0: nat, p: nat, nested: bool, acc: Sequence, x: Sequence, q: nat)
    requires Utf8Text(s) && p < |s| && StartsTurn(s[p]) && SpellsSequence(s, p0, p, acc, nested)
    requires TurnFrom(s, p, nested, acc) == Ok((x, q))
    ensures SpellsSequence(s, p0, q, x, nested)
    decreases |s| - p, 2
  {
    if IsRepeatChar(s[p]) {
      RepeatSpelled(s, p0, p, nested, acc, x, q);
    } else {
      ItemSpelled(s, p, nested, x.last, q);
    }
  }

  lemma {:induction false} SequenceSpelled(s: Text, p0: nat, p: nat, nested: bool, acc: Sequence, x: Sequence, q: nat)
    requires Utf8Text(s) && p <= |s| && SpellsSequence(s, p0, p, acc, nested)
    requires SequenceFrom(s, p, nested, acc) == Ok((x, q))
    ensures SpellsSequence(s, p0, q, x, nested)
    decreases |s| - p, 3
  {
    if p < |s| && StartsTurn(s[p]) {
      var (y, m) := TurnFrom(s, p, nested, acc).value;
      TurnSpelled(s, p0, p, nested, acc, y, m);
      SequenceSpelled(s, p0, m, nested, y, x, q);
    }
  }

  lemma {:induction false} TailSpelled(s: Text, p0: nat, p: nat, nested: bool, acc: Alternates, a: Alternates, q: nat)
    requires Utf8Text(s) && p <= |s| && SpellsAlternates(s, p0, p, acc, nested)
    requires AlternatesTail(s, p, nested, acc) == Ok((a, q))
    ensures SpellsAlternates(s, p0, q, a, nested)
    decreases |s| - p, 4
  {
    if At(s, p) == '|' {
      var k := SpaceEnd(s, p + 1, true);
      var (back, m) := SequenceFrom(s, k, nested, Empty).value;
      SpaceSpelled(s, p + 1, true);
      SequenceSpelled(s, k, k, nested, Empty, back, m);
      assert SpellsAlternates(s, p0, m, Or(acc, back), nested);
      TailSpelled(s, p0, m, nested, Or(acc, back), a, q);
    }
  }

  lemma {:induction false} AlternatesSpelled(s: Text, p: nat, nested: bool, a: Alternates, q: nat)
    requires Utf8Text(s) && p <= |s| && AlternatesFrom(s, p, nested) == Ok((a, q))
    ensures SpellsAlternates(s, p, q, a, nested)
    decreases |s| - p, 5
  {
    var (first, m) := SequenceFrom(s, p, nested, Empty).value;
    SequenceSpelled(s, p, p, nested, Empty, first, m);
    TailSpelled(s, p, m, nested, Single(first), a, q);
  }

  lemma {:induction false} RuleEndSpelled(s: Text, p: nat, q: nat)
    requires p <= |s| && RuleEnd(s, p) == Ok(q)
    ensures SpellsRuleEnd(s, p, q)
  {
    if p < |s| {
      assert EndsLine(s, p);
      assert SpaceEnd(s, p, true) == SpaceEnd(s, p + 1, true);
      assert EndsLine(s, p + 1) ==> SpaceEnd(s, p + 1, true) == SpaceEnd(s, p + 2, true);
      SpaceSpelled(s, p, true);
    }
  }

  lemma {:induction false} DefinitionSpelled(s: Text, p: nat, body: Alternates, q: nat) returns (b: nat)
    requires Utf8Text(s) && p <= |s| && DefinitionFrom(s, p) == Ok((body, q))
    ensures SpellsDefinition(s, p, b, body) && SpellsRuleEnd(s, b, q)
  {
    var a := SpaceEnd(s, p + 3, true);
    SpaceSpelled(s, p + 3, true);
    b := AlternatesFrom(s, a, false).value.1;
    AlternatesSpelled(s, a, false, body, b);
    RuleEndSpelled(s, b, q);
  }

  lemma {:induction false} RuleSpelled(s: Text, p: nat, r: Rule, q: nat)
    requires Utf8Text(s) && p <= |s| && RuleFrom(s, p) == Ok((r.name, r.body, q))
    ensures SpellsRule(s, p, q, r)
  {
    var e := NameEnd(s, p);
    var k := SpaceEnd(s, e, false);
    NameSpelled(s, p);
    SpaceSpelled(s, e, false);
    var b := DefinitionSpelled(s, k, r.body, q);
  }

  lemma {:induction false} RulesSpelled(s: Text, p: nat, g: Grammar, g': Grammar) returns (rules: seq<Rule>)
    requires Utf8Text(s) && p <= |s| && RulesFrom(s, p, g) == Ok(g')
    ensures SpellsRules(s, p, rules) && Defined(rules, g) == g'
    decreases |s| - p
  {
    if p == |s| {
      rules := [];
    } else {
      var (name, body, q) := RuleFrom(s, p).value;
      RuleSpelled(s, p, Rule(name, body), q);
      var rest := RulesSpelled(s, q, g[name := body], g');
      rules := [Rule(name, body)] + rest;
      assert rules[1..] == rest;
    }
  }

  /** A text in UTF-8 that is read spells rules that define what it is read as. */
  lemma {:induction false} ReadIsSpelled(s: Text, g: Grammar) returns (rules: seq<Rule>)
    requires Utf8Text(s) && GrammarOf(s) == Ok(g)
    ensures SpellsGrammar(s, rules) && Defined(rules, map[]) == g
  {
    SpaceSpelled(s, 0, true);
    rules := RulesSpelled(s, SpaceEnd(s, 0, true), map[], g);
  }

  /** Any characters, in UTF-8, are read as a grammar exactly when they spell rules that define
      it; on everything else reading is an error. */
  lemma {:induction false} ReadIffSpelled(cs: seq<nat>, g: Grammar)
    requires AllScalar(cs)
    ensures var s := Encoded(cs);
      GrammarOf(s) == Ok(g) <==> exists rules :: SpellsGrammar(s, rules) && Defined(rules, map[]) == g
  {
    var s := Encoded(cs);
    EncodedIsText(cs);
    if GrammarOf(s) == Ok(g) {
      var rules := ReadIsSpelled(s, g);
    }
    if rules :| SpellsGrammar(s, rules) && Defined(rules, map[]) == g {
      SpelledIsRead(s, rules);
    }
  }

  // ----- examples -----

  /** A hyphen in front of the closing bracket stands for itself. */
  lemma HyphenExample(s: Text, p: nat, nested: bool)
    requires p + 4 <= |s| && s[p] == '[' && s[p + 1] == 'a' && s[p + 2] == '-' && s[p + 3] == ']'
    ensures SpellsToken(s, p, p + 4, Class(false, [One(97), One(45)]), nested)
  {
    AsciiChar(s, p + 1);
    AsciiChar(s, p + 2);
    assert [One(97), One(45)][1..] == [One(45)] && [One(45)][1..] == [];
    assert SpellsClass(s, p + 3, p + 4, []);
    assert SpellsClass(s, p + 2, p + 4, [One(45)]);
  }

  lemma AsciiChar(s: Text, p: nat)
    requires p < |s| && s[p] as int < 128 && s[p] != '\\'
    ensures SpellsChar(s, p, p + 1, s[p] as nat)
  {
    assert s[p..p + 1] == [s[p]];
    assert PlainChar(s, p, p + 1, s[p] as nat);
  }
}
