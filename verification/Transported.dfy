/**
 Reading an error back out of the text it was rendered to: find the outermost name a renderer
 put there, take its payload, undo one level of escaping, and repeat. The table of names is a
 parameter of everything here; `Sound` is what the scan relies on, and the real table has it.
 */
module Transported {
  import opened Numeric
  import opened Scan
  import opened Markers

  datatype Recovered = Recovered(variant: Variant, message: string)

  // ----- where a renderer puts a name

  /** The text before a position ends the way a renderer ends it before a nested error. */
  predicate StructuralAfter(before: string) {
    var n := |before|;
    if n == 0 then true
    else match before[n - 1]
      case '(' | '[' | '\n' | ',' => true
      case ' ' => n >= 2 && (before[n - 2] == ':' || before[n - 2] == ',')
      case _ => false
  }

  predicate EndsWith(s: string, suffix: string) {
    |suffix| <= |s| && s[|s| - |suffix|..] == suffix
  }

  /** Nothing, or one of the six endings a renderer writes before a nested error. */
  predicate EndsStructurally(before: string) {
    || before == ""
    || EndsWith(before, "(") || EndsWith(before, "[") || EndsWith(before, "\n") || EndsWith(before, ",")
    || EndsWith(before, ": ") || EndsWith(before, ", ")
  }

  lemma EndsWithOne(s: string, c: char, suffix: string)
    requires suffix == [c]
    ensures EndsWith(s, suffix) <==> s != "" && s[|s| - 1] == c
  {
    if s != "" {
      assert s[|s| - 1..] == [s[|s| - 1]];
    }
  }

  lemma EndsWithTwo(s: string, c: char, d: char, suffix: string)
    requires suffix == [c, d]
    ensures EndsWith(s, suffix) <==> 2 <= |s| && s[|s| - 2] == c && s[|s| - 1] == d
  {
    if 2 <= |s| {
      assert s[|s| - 2..] == [s[|s| - 2], s[|s| - 1]];
    }
  }

  /** The code looks at the last character and, for a space, at the one before: the same positions. */
  lemma StructuralIsEnding(before: string)
    ensures StructuralAfter(before) <==> EndsStructurally(before)
  {
    EndsWithOne(before, '(', "(");
    EndsWithOne(before, '[', "[");
    EndsWithOne(before, '\n', "\n");
    EndsWithOne(before, ',', ",");
    EndsWithTwo(before, ':', ' ', ": ");
    EndsWithTwo(before, ',', ' ', ", ");
  }

  predicate IsStructural(text: string, at: nat)
    requires at <= |text|
  {
    StructuralAfter(text[..at])
  }

  /** A name sits at a structural position. */
  predicate Marks(text: string, needle: string, at: nat) {
    Occurs(text, needle, at) && IsStructural(text, at)
  }

  /** No position strictly inside a name is structural, whatever stands before the name. */
  lemma InsideIsNotStructural(text: string, n: string, at: nat, inside: nat)
    requires ConstructorShaped(n) || PrefixShaped(n)
    requires Occurs(text, n, at) && at < inside < at + |n|
    ensures !IsStructural(text, inside)
  {
    var j := inside - at;
    assert text[at + (j - 1)] == n[j - 1];
    if 2 <= j {
      assert text[at + (j - 2)] == n[j - 2];
    }
  }

  // ----- the first structural occurrence of one name

  ghost predicate IsFirstMark(text: string, needle: string, r: Option<nat>) {
    && (r.Some? ==> Marks(text, needle, r.value))
    && forall i: nat :: Marks(text, needle, i) ==> r.Some? && r.value <= i
  }

  /** Skips a whole name after each occurrence that is not structural, and misses none that is. */
  method FirstStructural(text: string, needle: string) returns (r: Option<nat>)
    requires ConstructorShaped(needle) || PrefixShaped(needle)
    ensures IsFirstMark(text, needle, r)
  {
    var from := 0;
    while true
      invariant forall i: nat :: Marks(text, needle, i) ==> from <= i
      decreases |text| + |needle| - from
    {
      var found := Find(text, needle, from);
      FindIsFirst(text, needle, from);
      if found.None? {
        return None;
      }
      var at := found.value;
      if IsStructural(text, at) {
        return Some(at);
      }
      forall i: nat | Marks(text, needle, i)
        ensures at + |needle| <= i
      {
        if at < i < at + |needle| {
          InsideIsNotStructural(text, needle, at, i);
        }
      }
      from := at + |needle|;
    }
  }

  // ----- the outermost name

  /** A name of the table: whose, and in which spelling. */
  datatype Name = Name(marker: Marker, spelling: Spelling) {
    function Text(): string {
      marker.Needle(spelling)
    }
  }

  ghost predicate MarkerFree(table: seq<Marker>, text: string) {
    forall m <- table, s: Spelling, at: nat :: !Marks(text, m.Needle(s), at)
  }

  /** `name` marks `at`, and nothing in the table marks the text earlier. */
  ghost predicate IsOutermost(table: seq<Marker>, text: string, name: Name, at: nat) {
    && name.marker in table
    && Marks(text, name.Text(), at)
    && forall m <- table, s: Spelling, i: nat :: Marks(text, m.Needle(s), i) ==> at <= i
  }

  lemma NamesEndTogether(text: string, n: string, d: string, at: nat)
    requires ConstructorShaped(n) || PrefixShaped(n)
    requires ConstructorShaped(d) || PrefixShaped(d)
    requires Occurs(text, n, at) && Occurs(text, d, at)
    ensures ConstructorShaped(n) == ConstructorShaped(d) && |n| == |d| && n[..1] == d[..1]
  {
    assert forall i :: 0 <= i < |n| && i < |d| ==> n[i] == text[at + i] == d[i];
    assert n[0] == d[0];
    if |n| <= |d| {
      assert n[|n| - 2] == d[|n| - 2];
    }
  }

  /** Two names found at the same place are the same name. */
  lemma SamePlaceSameName(table: seq<Marker>, text: string, a: Name, b: Name, at: nat)
    requires Sound(table) && a.marker in table && b.marker in table
    requires Occurs(text, a.Text(), at) && Occurs(text, b.Text(), at)
    ensures a == b
  {
    NamesEndTogether(text, a.Text(), b.Text(), at);
  }

  lemma OutermostUnique(table: seq<Marker>, text: string, a: Name, at: nat, b: Name, bt: nat)
    requires Sound(table) && IsOutermost(table, text, a, at) && IsOutermost(table, text, b, bt)
    ensures a == b && at == bt
  {
    assert at <= bt by { assert Marks(text, b.marker.Needle(b.spelling), bt); }
    assert bt <= at by { assert Marks(text, a.marker.Needle(a.spelling), at); }
    SamePlaceSameName(table, text, a, b, at);
  }

  /** The names the search has been through mark no earlier than the best found. */
  ghost predicate BestOf(table: seq<Marker>, text: string, best: Option<(nat, Name)>) {
    && (best.Some? ==> best.value.1.marker in table && Marks(text, best.value.1.Text(), best.value.0))
    && forall m <- table, s: Spelling, i: nat :: Marks(text, m.Needle(s), i) ==> best.Some? && best.value.0 <= i
  }

  /** Of two finds, the strictly earlier one leads and the first keeps a tie. */
  function Earlier(best: Option<(nat, Name)>, found: Option<nat>, name: Name): Option<(nat, Name)> {
    if found.Some? && (best.None? || found.value < best.value.0) then Some((found.value, name)) else best
  }

  lemma BestGrows(table: seq<Marker>, text: string, best: Option<(nat, Name)>, m: Marker,
                  debug: Option<nat>, display: Option<nat>)
    requires BestOf(table, text, best)
    requires IsFirstMark(text, m.debug, debug) && IsFirstMark(text, m.display, display)
    ensures BestOf(table + [m], text, Earlier(Earlier(best, debug, Name(m, Debug)), display, Name(m, Display)))
  {
    var after := Earlier(Earlier(best, debug, Name(m, Debug)), display, Name(m, Display));
    forall o <- table + [m], s: Spelling, i: nat | Marks(text, o.Needle(s), i)
      ensures after.Some? && after.value.0 <= i
    {
      if o in table {
        assert best.Some? && best.value.0 <= i;
      }
    }
  }

  /** The leftmost name with the offset just past it, or none when no name marks. */
  ghost predicate IsSearched(table: seq<Marker>, text: string, r: Option<(Name, nat)>) {
    match r
    case None => MarkerFree(table, text)
    case Some((name, after)) => |name.Text()| <= after && IsOutermost(table, text, name, after - |name.Text()|)
  }

  /** Search the table for the leftmost name, with the offset just past it. */
  method OutermostMarker(table: seq<Marker>, text: string) returns (r: Option<(Name, nat)>)
    requires Sound(table)
    ensures r.Some? ==> |r.value.0.Text()| <= r.value.1 <= |text|
    ensures IsSearched(table, text, r)
  {
    var best: Option<(nat, Name)> := None;
    for i := 0 to |table|
      invariant BestOf(table[..i], text, best)
    {
      var m := table[i];
      var debug := FirstStructural(text, m.debug);
      var display := FirstStructural(text, m.display);
      BestGrows(table[..i], text, best, m, debug, display);
      assert table[..i + 1] == table[..i] + [m];
      best := Earlier(Earlier(best, debug, Name(m, Debug)), display, Name(m, Display));
    }
    assert table[..|table|] == table;
    if best.None? {
      return None;
    }
    var (at, name) := best.value;
    assert Marks(text, name.marker.Needle(name.spelling), at);
    r := Some((name, at + |name.Text()|));
  }
}
