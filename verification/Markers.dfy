/**
 The names a rendered error spells its variant with, and the facts about those names that
 keep a scan for the leftmost of them honest: no name overlaps another, or itself, anywhere
 but at its own start.
 */
module Markers {
  import opened Numeric
  import opened Scan

  datatype Variant =
    | Arrow
    | Configuration
    | Execution
    | ExecutionJoin
    | Internal
    | Io
    | NotImplemented
    | Plan
    | ResourcesExhausted
    | Schema
    | Sql
    | Substrait

  /** `Debug` is the constructor with its parenthesis, `Display` the engine's prefix. */
  datatype Spelling = Debug | Display

  /** One variant and the two names it can arrive under. */
  datatype Marker = Marker(variant: Variant, debug: string, display: string) {
    function Needle(spelling: Spelling): string {
      match spelling
      case Debug => debug
      case Display => display
    }
  }

  function Constructor(v: Variant): string {
    match v
    case Arrow => "ArrowError("
    case Configuration => "Configuration("
    case Execution => "Execution("
    case ExecutionJoin => "ExecutionJoin("
    case Internal => "Internal("
    case Io => "IoError("
    case NotImplemented => "NotImplemented("
    case Plan => "Plan("
    case ResourcesExhausted => "ResourcesExhausted("
    case Schema => "SchemaError("
    case Sql => "SQL("
    case Substrait => "Substrait("
  }

  function Prefix(v: Variant): string {
    match v
    case Arrow => "Arrow error: "
    case Configuration => "Invalid or Unsupported Configuration: "
    case Execution => "Execution error: "
    case ExecutionJoin => "ExecutionJoin error: "
    case Internal => "Internal error: "
    case Io => "IO error: "
    case NotImplemented => "This feature is not implemented: "
    case Plan => "Error during planning: "
    case ResourcesExhausted => "Resources exhausted: "
    case Schema => "Schema error: "
    case Sql => "SQL error: "
    case Substrait => "Substrait error: "
  }

  /** The variants in the order the table lists them. */
  const VARIANTS: seq<Variant> :=
    [Arrow, Configuration, Execution, ExecutionJoin, Internal, Io,
     NotImplemented, Plan, ResourcesExhausted, Schema, Sql, Substrait]

  function MarkerOf(v: Variant): Marker {
    Marker(v, Constructor(v), Prefix(v))
  }

  /** The table a scan goes through. */
  const MARKERS: seq<Marker> := seq(|VARIANTS|, i requires 0 <= i < |VARIANTS| => MarkerOf(VARIANTS[i]))

  // ----- the shape of a name

  predicate IsLetter(c: char) {
    'a' <= c <= 'z' || 'A' <= c <= 'Z'
  }

  /** A constructor: letters, then the parenthesis it opens. */
  predicate ConstructorShaped(n: string) {
    && |n| >= 2 && n[|n| - 1] == '('
    && forall i :: 0 <= i < |n| - 1 ==> IsLetter(n[i])
  }

  /** A prefix: words, then a colon and a space. */
  predicate PrefixShaped(n: string) {
    && |n| >= 3 && n[|n| - 2] == ':' && n[|n| - 1] == ' ' && n[0] != ' '
    && forall i :: 0 <= i < |n| - 2 ==> IsLetter(n[i]) || n[i] == ' '
  }

  // The table is checked a few names at a time.

  predicate FirstThird(v: Variant) {
    v.Arrow? || v.Configuration? || v.Execution? || v.ExecutionJoin?
  }

  predicate SecondThird(v: Variant) {
    v.Internal? || v.Io? || v.NotImplemented? || v.Plan?
  }

  lemma ConstructorShape1(v: Variant)
    requires FirstThird(v)
    ensures ConstructorShaped(Constructor(v))
  {
  }

  lemma ConstructorShape2(v: Variant)
    requires SecondThird(v)
    ensures ConstructorShaped(Constructor(v))
  {
  }

  lemma ConstructorShape3(v: Variant)
    requires !FirstThird(v) && !SecondThird(v)
    ensures ConstructorShaped(Constructor(v))
  {
  }

  predicate LongName(v: Variant) {
    v.Configuration? || v.NotImplemented?
  }

  lemma PrefixShape0(v: Variant)
    requires LongName(v)
    ensures PrefixShaped(Prefix(v))
  {
  }

  lemma PrefixShape1(v: Variant)
    requires FirstThird(v) && !LongName(v)
    ensures PrefixShaped(Prefix(v))
  {
  }

  lemma PrefixShape2(v: Variant)
    requires SecondThird(v) && !LongName(v)
    ensures PrefixShaped(Prefix(v))
  {
  }

  lemma PrefixShape3(v: Variant)
    requires !FirstThird(v) && !SecondThird(v)
    ensures PrefixShaped(Prefix(v))
  {
  }

  lemma NamesShaped(v: Variant)
    ensures ConstructorShaped(Constructor(v)) && PrefixShaped(Prefix(v))
  {
    if FirstThird(v) {
      ConstructorShape1(v);
    } else if SecondThird(v) {
      ConstructorShape2(v);
    } else {
      ConstructorShape3(v);
    }
    if LongName(v) {
      PrefixShape0(v);
    } else if FirstThird(v) {
      PrefixShape1(v);
    } else if SecondThird(v) {
      PrefixShape2(v);
    } else {
      PrefixShape3(v);
    }
  }

  /** First character and length, which tell the names of one spelling apart. */
  function Key(v: Variant, s: Spelling): (char, nat) {
    match v
    case Arrow => ('A', if s.Debug? then 11 else 13)
    case Configuration => if s.Debug? then ('C', 14) else ('I', 38)
    case Execution => ('E', if s.Debug? then 10 else 17)
    case ExecutionJoin => ('E', if s.Debug? then 14 else 21)
    case Internal => ('I', if s.Debug? then 9 else 16)
    case Io => ('I', if s.Debug? then 8 else 10)
    case NotImplemented => if s.Debug? then ('N', 15) else ('T', 33)
    case Plan => if s.Debug? then ('P', 5) else ('E', 23)
    case ResourcesExhausted => ('R', if s.Debug? then 19 else 21)
    case Schema => ('S', if s.Debug? then 12 else 14)
    case Sql => ('S', if s.Debug? then 4 else 11)
    case Substrait => ('S', if s.Debug? then 10 else 17)
  }

  lemma KeyOfConstructor(v: Variant)
    ensures |Constructor(v)| > 0 && (Constructor(v)[0], |Constructor(v)|) == Key(v, Debug)
  {
  }

  lemma KeyOfPrefix(v: Variant)
    ensures |Prefix(v)| > 0 && (Prefix(v)[0], |Prefix(v)|) == Key(v, Display)
  {
  }

  lemma KeyDistinguishes(v: Variant, w: Variant, s: Spelling)
    requires Key(v, s) == Key(w, s)
    ensures v == w
  {
  }

  // ----- a table a scan can trust

  /** The names have their shapes, and no two of one spelling share first character and length. */
  ghost predicate Sound(table: seq<Marker>) {
    && (forall i :: 0 <= i < |table| ==>
          ConstructorShaped(table[i].debug) && PrefixShaped(table[i].display))
    && (forall i, j, s: Spelling :: 0 <= i < |table| && 0 <= j < |table|
          && |table[i].Needle(s)| == |table[j].Needle(s)| && table[i].Needle(s)[..1] == table[j].Needle(s)[..1]
          ==> table[i] == table[j])
  }

  lemma MarkersSound()
    ensures Sound(MARKERS)
  {
    forall i | 0 <= i < |MARKERS|
      ensures ConstructorShaped(MARKERS[i].debug) && PrefixShaped(MARKERS[i].display)
    {
      NamesShaped(VARIANTS[i]);
    }
    forall i, j, s: Spelling | 0 <= i < |MARKERS| && 0 <= j < |MARKERS|
      && |MARKERS[i].Needle(s)| == |MARKERS[j].Needle(s)| && MARKERS[i].Needle(s)[..1] == MARKERS[j].Needle(s)[..1]
      ensures MARKERS[i] == MARKERS[j]
    {
      if s.Debug? {
        SameConstructor(VARIANTS[i], VARIANTS[j]);
      } else {
        SamePrefix(VARIANTS[i], VARIANTS[j]);
      }
    }
  }

  lemma SameConstructor(v: Variant, w: Variant)
    requires |Constructor(v)| == |Constructor(w)| > 0 && Constructor(v)[..1] == Constructor(w)[..1]
    ensures v == w
  {
    KeyOfConstructor(v);
    KeyOfConstructor(w);
    assert Constructor(v)[..1][0] == Constructor(w)[..1][0];
    KeyDistinguishes(v, w, Debug);
  }

  lemma SamePrefix(v: Variant, w: Variant)
    requires |Prefix(v)| == |Prefix(w)| > 0 && Prefix(v)[..1] == Prefix(w)[..1]
    ensures v == w
  {
    KeyOfPrefix(v);
    KeyOfPrefix(w);
    assert Prefix(v)[..1][0] == Prefix(w)[..1][0];
    KeyDistinguishes(v, w, Display);
  }
}
