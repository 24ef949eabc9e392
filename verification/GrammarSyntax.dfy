/** Abstract syntax of the extended BNF that the grammar compiler reads, the flat
    rule elements that it writes, and what each of the two denotes. */
module GrammarSyntax {

  // A word is a sequence of code points.  Both languages are least fixed points over
  // mutually recursive rules, so both are given by a bound `k` on how deeply rule
  // references nest: a word belongs to a language when it is derived for some `k`.

  type Word = seq<nat>

  // ----- extended BNF -----

  datatype ClassItem = One(c: nat) | Span(lo: nat, hi: nat)

  datatype RepeatOp = Star | Plus | Optional

  datatype Item =
    | Literal(chars: seq<nat>)
    | Class(negated: bool, items: seq<ClassItem>)
    | Reference(name: string)
    | Group(body: Alternates)
    | Repeat(op: RepeatOp, operand: Item)

  // Sequences and alternates grow at their right end, as the parser reads them.
  datatype Sequence = Empty | Then(init: Sequence, last: Item)

  datatype Alternates = Single(only: Sequence) | Or(front: Alternates, back: Sequence)

  type Grammar = map<string, Alternates>

  predicate ItemHas(item: ClassItem, c: nat) {
    match item
    case One(d) => c == d
    case Span(lo, hi) => lo <= c <= hi
  }

  predicate ClassHas(negated: bool, items: seq<ClassItem>, c: nat) {
    negated != exists i :: 0 <= i < |items| && ItemHas(items[i], c)
  }

  predicate CountAllowed(op: RepeatOp, n: nat) {
    match op
    case Star => true
    case Plus => n >= 1
    case Optional => n <= 1
  }

  function Flatten(ws: seq<Word>): Word {
    if ws == [] then [] else ws[0] + Flatten(ws[1..])
  }

  ghost predicate DenItem(g: Grammar, k: nat, item: Item, w: Word)
    decreases k, item, 0
  {
    match item
    case Literal(chars) => w == chars
    case Class(negated, items) => |w| == 1 && ClassHas(negated, items, w[0])
    case Reference(name) => k > 0 && name in g && DenAlternates(g, k - 1, g[name], w)
    case Group(body) => DenAlternates(g, k, body, w)
    case Repeat(op, operand) =>
      exists ws: seq<Word> :: Flatten(ws) == w && CountAllowed(op, |ws|) && DenAll(g, k, operand, ws)
  }

  ghost predicate DenAll(g: Grammar, k: nat, item: Item, ws: seq<Word>)
    decreases k, item, 1
  {
    forall i :: 0 <= i < |ws| ==> DenItem(g, k, item, ws[i])
  }

  ghost predicate DenSequence(g: Grammar, k: nat, s: Sequence, w: Word)
    decreases k, s, 0
  {
    match s
    case Empty => w == []
    case Then(init, last) =>
      exists i :: 0 <= i <= |w| && DenSequence(g, k, init, w[..i]) && DenItem(g, k, last, w[i..])
  }

  ghost predicate DenAlternates(g: Grammar, k: nat, a: Alternates, w: Word)
    decreases k, a, 0
  {
    match a
    case Single(only) => DenSequence(g, k, only, w)
    case Or(front, back) => DenAlternates(g, k, front, w) || DenSequence(g, k, back, w)
  }

  /** The language that the extended BNF grammar gives to one of its rules. */
  ghost predicate InSourceLanguage(g: Grammar, name: string, w: Word) {
    exists k: nat :: DenItem(g, k, Reference(name), w)
  }

  // ----- flat rules -----

  datatype Element =
    | End
    | Alt
    | RuleRef(id: nat)
    | Char(c: nat)
    | CharNot(c: nat)
    | RngUpper(c: nat)
    | CharAlt(c: nat)
  {
    predicate IsChar() { Char? || CharNot? || RngUpper? || CharAlt? }
    predicate IsModifier() { RngUpper? || CharAlt? }
    predicate IsBoundary() { End? || Alt? }
  }

  type Rules = seq<seq<Element>>

  /** Whether one of the characters or ranges chained at the front of `es` has `c`. */
  predicate ChainHas(es: seq<Element>, c: nat)
    requires es != [] && es[0].IsChar()
  {
    if |es| > 1 && es[1].RngUpper? then
      es[0].c <= c <= es[1].c || (|es| > 2 && es[2].CharAlt? && ChainHas(es[2..], c))
    else
      es[0].c == c || (|es| > 1 && es[1].CharAlt? && ChainHas(es[1..], c))
  }

  /** How many elements that chain takes. */
  function ChainLength(es: seq<Element>): (n: nat)
    requires es != [] && es[0].IsChar()
    ensures 0 < n <= |es|
  {
    if |es| > 1 && es[1].RngUpper? then
      if |es| > 2 && es[2].CharAlt? then 2 + ChainLength(es[2..]) else 2
    else
      if |es| > 1 && es[1].CharAlt? then 1 + ChainLength(es[1..]) else 1
  }

  /** How many elements the first symbol of `es` takes. */
  function SymbolLength(es: seq<Element>): (n: nat)
    requires es != []
    ensures 0 < n <= |es|
  {
    if es[0].Char? || es[0].CharNot? then ChainLength(es) else 1
  }

  /** The symbols of a sequence: rule references, and characters with their modifiers. */
  function SymbolsOf(es: seq<Element>): seq<seq<Element>> {
    if es == [] then [] else [es[..SymbolLength(es)]] + SymbolsOf(es[SymbolLength(es)..])
  }

  ghost predicate FlatSymbol(rules: Rules, k: nat, symbol: seq<Element>, w: Word)
    decreases k, 1
  {
    symbol != [] &&
    match symbol[0]
    case RuleRef(id) => FlatRule(rules, k, id, w)
    case Char(_) => |w| == 1 && ChainHas(symbol, w[0])
    case CharNot(_) => |w| == 1 && !ChainHas(symbol, w[0])
    case _ => false
  }

  ghost predicate FlatSymbols(rules: Rules, k: nat, symbols: seq<seq<Element>>, ws: seq<Word>)
    decreases k, 2
  {
    |ws| == |symbols| && forall i :: 0 <= i < |ws| ==> FlatSymbol(rules, k, symbols[i], ws[i])
  }

  ghost predicate FlatSequence(rules: Rules, k: nat, es: seq<Element>, w: Word)
    decreases k, 3
  {
    exists ws: seq<Word> :: Flatten(ws) == w && FlatSymbols(rules, k, SymbolsOf(es), ws)
  }

  /** Elements `i` up to `j` of a rule are one of its alternates. */
  predicate IsAlternate(rule: seq<Element>, i: int, j: int) {
    && 0 <= i <= j < |rule|
    && (i == 0 || rule[i - 1].Alt?)
    && rule[j].IsBoundary()
    && (forall t :: 0 <= t < i ==> !rule[t].End?)
    && (forall t :: i <= t < j ==> !rule[t].IsBoundary())
  }

  ghost predicate FlatBody(rules: Rules, k: nat, rule: seq<Element>, w: Word)
    decreases k, 4
  {
    exists i, j :: IsAlternate(rule, i, j) && FlatSequence(rules, k, rule[i..j], w)
  }

  ghost predicate FlatRule(rules: Rules, k: nat, id: nat, w: Word)
    decreases k, 0
  {
    k > 0 && id < |rules| && FlatBody(rules, k - 1, rules[id], w)
  }

  /** The language of a flat rule. */
  ghost predicate InFlatLanguage(rules: Rules, id: nat, w: Word) {
    exists k: nat :: FlatRule(rules, k, id, w)
  }
}
