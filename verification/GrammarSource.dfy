/** What a grammar text says: the extended BNF syntax tree of every text, or its error.
    Nothing here lowers anything; a repetition operator simply wraps the item before it. */
module GrammarSource {
  import opened GrammarText
  import opened GrammarSyntax

  function LiteralFrom(s: Text, p: nat, chars: seq<nat>): (r: Result<(seq<nat>, nat)>)
    requires p <= |s|
    ensures r.Ok? ==> p <= r.value.1 < |s| && s[r.value.1] == '"'
    decreases |s| - p
  {
    if At(s, p) == '"' then Ok((chars, p))
    else
      var (c, q) :- CharAt(s, p);
      LiteralFrom(s, q, chars + [c])
  }

  function ClassItemFrom(s: Text, p: nat): (r: Result<(ClassItem, nat)>)
    requires p <= |s|
    ensures r.Ok? ==> p < r.value.1 <= |s|
  {
    var (lo, q) :- CharAt(s, p);
    if At(s, q) == '-' && At(s, q + 1) != ']' then
      var (hi, e) :- CharAt(s, q + 1);
      Ok((Span(lo, hi), e))
    else
      Ok((One(lo), q))
  }

  function ClassFrom(s: Text, p: nat, items: seq<ClassItem>): (r: Result<(seq<ClassItem>, nat)>)
    requires p <= |s|
    ensures r.Ok? ==> p <= r.value.1 < |s| && s[r.value.1] == ']'
    decreases |s| - p
  {
    if At(s, p) == ']' then Ok((items, p))
    else
      var (item, q) :- ClassItemFrom(s, p);
      ClassFrom(s, q, items + [item])
  }

  function RepeatOpOf(c: char): RepeatOp
    requires IsRepeatChar(c)
  {
    if c == '*' then Star else if c == '+' then Plus else Optional
  }

  /** Whether a repetition operator can apply to what has been read so far: there is a
      last item and it is not an empty literal or class. */
  predicate Repeatable(acc: Sequence) {
    match acc
    case Empty => false
    case Then(_, Literal(chars)) => chars != []
    case Then(_, Class(_, items)) => items != []
    case Then(_, _) => true
  }

  predicate IsRepeatChar(c: char) { c == '*' || c == '+' || c == '?' }

  predicate StartsItem(c: char) { c == '"' || c == '[' || IsWordChar(c) || c == '(' }

  function LiteralItem(s: Text, p: nat, nested: bool): (r: Result<(Item, nat)>)
    requires p < |s|
    ensures r.Ok? ==> p < r.value.1 <= |s|
  {
    var (chars, q) :- LiteralFrom(s, p + 1, []);
    Ok((Literal(chars), SpaceEnd(s, q + 1, nested)))
  }

  function ClassStart(s: Text, p: nat): (e: nat)
    requires p < |s|
    ensures p < e <= |s|
  {
    if At(s, p + 1) == '^' then p + 2 else p + 1
  }

  function ClassAt(s: Text, p: nat, nested: bool): (r: Result<(Item, nat)>)
    requires p < |s|
    ensures r.Ok? ==> p < r.value.1 <= |s|
  {
    var negated := At(s, p + 1) == '^';
    var (items, q) :- ClassFrom(s, ClassStart(s, p), []);
    Ok((Class(negated, items), SpaceEnd(s, q + 1, nested)))
  }

  function ReferenceItem(s: Text, p: nat, nested: bool): (r: (Item, nat))
    requires p < |s| && IsWordChar(s[p])
    ensures p < r.1 <= |s|
  {
    var e := NameEnd(s, p);
    (Reference(s[p..e]), SpaceEnd(s, e, nested))
  }

  function GroupEnd(s: Text, p: nat, nested: bool): (r: Result<nat>)
    requires p <= |s|
    ensures r.Ok? ==> p < r.value <= |s|
  {
    if At(s, p) != ')' then Err(ExpectingClose) else Ok(SpaceEnd(s, p + 1, nested))
  }

  function GroupItem(s: Text, p: nat, nested: bool): (r: Result<(Item, nat)>)
    requires p < |s|
    ensures r.Ok? ==> p < r.value.1 <= |s|
    decreases |s| - p, 0
  {
    var (body, q) :- AlternatesFrom(s, SpaceEnd(s, p + 1, true), true);
    var e :- GroupEnd(s, q, nested);
    Ok((Group(body), e))
  }

  function ItemFrom(s: Text, p: nat, nested: bool): (r: Result<(Item, nat)>)
    requires p < |s| && StartsItem(s[p])
    ensures r.Ok? ==> p < r.value.1 <= |s|
    decreases |s| - p, 1
  {
    if s[p] == '"' then LiteralItem(s, p, nested)
    else if s[p] == '[' then ClassAt(s, p, nested)
    else if s[p] == '(' then GroupItem(s, p, nested)
    else Ok(ReferenceItem(s, p, nested))
  }

  function RepeatFrom(s: Text, p: nat, nested: bool, acc: Sequence): (r: Result<(Sequence, nat)>)
    requires p < |s| && IsRepeatChar(s[p])
    ensures r.Ok? ==> p < r.value.1 <= |s|
  {
    if !Repeatable(acc) then Err(ExpectingItem)
    else Ok((Then(acc.init, Repeat(RepeatOpOf(s[p]), acc.last)), SpaceEnd(s, p + 1, nested)))
  }

  predicate StartsTurn(c: char) { StartsItem(c) || IsRepeatChar(c) }

  /** One more item, or a repetition of the last one. */
  function TurnFrom(s: Text, p: nat, nested: bool, acc: Sequence): (r: Result<(Sequence, nat)>)
    requires p < |s| && StartsTurn(s[p])
    ensures r.Ok? ==> p < r.value.1 <= |s|
    decreases |s| - p, 2
  {
    if IsRepeatChar(s[p]) then RepeatFrom(s, p, nested, acc)
    else
      var (item, q) :- ItemFrom(s, p, nested);
      Ok((Then(acc, item), q))
  }

  function SequenceFrom(s: Text, p: nat, nested: bool, acc: Sequence): (r: Result<(Sequence, nat)>)
    requires p <= |s|
    ensures r.Ok? ==> p <= r.value.1 <= |s|
    decreases |s| - p, 3
  {
    if p < |s| && StartsTurn(s[p]) then
      var (acc', q) :- TurnFrom(s, p, nested, acc);
      SequenceFrom(s, q, nested, acc')
    else
      Ok((acc, p))
  }

  function AlternatesTail(s: Text, p: nat, nested: bool, acc: Alternates): (r: Result<(Alternates, nat)>)
    requires p <= |s|
    ensures r.Ok? ==> p <= r.value.1 <= |s|
    decreases |s| - p, 4
  {
    if At(s, p) == '|' then
      var (back, q) :- SequenceFrom(s, SpaceEnd(s, p + 1, true), nested, Empty);
      AlternatesTail(s, q, nested, Or(acc, back))
    else
      Ok((acc, p))
  }

  function AlternatesFrom(s: Text, p: nat, nested: bool): (r: Result<(Alternates, nat)>)
    requires p <= |s|
    ensures r.Ok? ==> p <= r.value.1 <= |s|
    decreases |s| - p, 5
  {
    var (first, q) :- SequenceFrom(s, p, nested, Empty);
    AlternatesTail(s, q, nested, Single(first))
  }

  /** A rule ends at a line end or at the end of the text. */
  function RuleEnd(s: Text, p: nat): (r: Result<nat>)
    requires p <= |s|
    ensures r.Ok? ==> p <= r.value <= |s|
  {
    if At(s, p) == '\r' then Ok(SpaceEnd(s, if At(s, p + 1) == '\n' then p + 2 else p + 1, true))
    else if At(s, p) == '\n' then Ok(SpaceEnd(s, p + 1, true))
    else if p < |s| then Err(ExpectingNewline)
    else Ok(SpaceEnd(s, p, true))
  }

  predicate DefinitionAt(s: Text, p: nat) {
    At(s, p) == ':' && At(s, p + 1) == ':' && At(s, p + 2) == '='
  }

  function DefinitionFrom(s: Text, p: nat): (r: Result<(Alternates, nat)>)
    requires p <= |s|
    ensures r.Ok? ==> p < r.value.1 <= |s|
  {
    if !DefinitionAt(s, p) then Err(ExpectingDefinition)
    else
      var (body, b) :- AlternatesFrom(s, SpaceEnd(s, p + 3, true), false);
      var next :- RuleEnd(s, b);
      Ok((body, next))
  }

  function RuleFrom(s: Text, p: nat): (r: Result<(string, Alternates, nat)>)
    requires p <= |s|
    ensures r.Ok? ==> p < r.value.2 <= |s|
  {
    if !IsWordChar(At(s, p)) then Err(ExpectingName)
    else
      var e := NameEnd(s, p);
      var (body, next) :- DefinitionFrom(s, SpaceEnd(s, e, false));
      Ok((s[p..e], body, next))
  }

  /** A later rule of the same name replaces an earlier one. */
  function RulesFrom(s: Text, p: nat, g: Grammar): Result<Grammar>
    requires p <= |s|
    decreases |s| - p
  {
    if p == |s| then Ok(g)
    else
      var (name, body, q) :- RuleFrom(s, p);
      RulesFrom(s, q, g[name := body])
  }

  function GrammarOf(s: Text): Result<Grammar> {
    RulesFrom(s, SpaceEnd(s, 0, true), map[])
  }
}
