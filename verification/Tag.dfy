/**
 The `[VDB-<code>]` tag an error code travels in: writing it, reading it back, and removing
 it. A tag is made of characters no rendering escapes, so it can be read out of the raw text
 without peeling anything.
 */
module Tag {
  import opened Decimals
  import opened Numeric
  import opened Scan

  const TAG_OPEN: string := "[VDB-"

  /** The codes of the wire enumeration; zero is `Unspecified`. */
  predicate IsCode(n: int) {
    || n == 0 || 1000 <= n <= 1027 || 2000 <= n <= 2003 || 3000 <= n <= 3007
    || 4000 <= n <= 4003 || 5000 <= n <= 5001
  }

  // ----- writing and reading

  function TagOf(code: nat): string {
    TAG_OPEN + Decimal(code) + "]"
  }

  function TaggedMessage(code: nat, message: string): string {
    TagOf(code) + " " + message
  }

  /** The first tag at or after `from`: its offset and its digits. */
  function TagFrom(msg: string, from: nat): (r: Option<(nat, string)>)
    ensures r.Some? ==>
              && from <= r.value.0 && r.value.1 != "" && AllDigits(r.value.1)
              && r.value.0 + |TAG_OPEN| + |r.value.1| < |msg|
    decreases |msg| - from
  {
    var at :- Find(msg, TAG_OPEN, from);
    var start := at + |TAG_OPEN|;
    var end :- Find(msg, "]", start);
    var digits := msg[start..end];
    if digits != "" && AllDigits(digits) then Some((at, digits)) else TagFrom(msg, start)
  }

  /** A bracketed opening that is not a tag is stepped over whole. */
  lemma {:induction false} NotATag(msg: string, from: nat, at: nat, end: nat)
    requires Find(msg, TAG_OPEN, from) == Some(at) && Find(msg, "]", at + |TAG_OPEN|) == Some(end)
    requires var digits := msg[at + |TAG_OPEN|..end]; digits == "" || !AllDigits(digits)
    ensures TagFrom(msg, from) == TagFrom(msg, at + |TAG_OPEN|)
  {
  }

  /** The first tag of the text, wherever false openings stand before it, and none exactly when it has none. */
  method TagDigits(msg: string) returns (r: Option<(nat, string)>)
    ensures r == TagFrom(msg, 0)
    ensures r.Some? ==> IsTag(msg, r.value.0, r.value.1)
    ensures forall i: nat, digits: string :: r.None? || i < r.value.0 ==> !IsTag(msg, i, digits)
  {
    TagFromIsFirst(msg, 0);
    r := ScanForTag(msg);
  }

  method ScanForTag(msg: string) returns (r: Option<(nat, string)>)
    ensures r == TagFrom(msg, 0)
  {
    var from := 0;
    while true
      invariant TagFrom(msg, 0) == TagFrom(msg, from)
      decreases |msg| - from
    {
      ghost var start := from;
      var found := Find(msg, TAG_OPEN, from);
      if found.None? {
        return None;
      }
      var at := found.value;
      from := at + |TAG_OPEN|;
      var end := Find(msg, "]", from);
      if end.None? {
        return None;
      }
      var digits := msg[from..end.value];
      if digits != "" && AllDigits(digits) {
        return Some((at, digits));
      }
      NotATag(msg, start, at, end.value);
    }
  }

  /** The code tagged into `msg`; a number past `i32`, an unknown code and zero read as none. */
  function CodeOfTaggedMessage(msg: string): Option<int> {
    var (_, digits) :- TagFrom(msg, 0);
    var n := Number(digits);
    if n <= I32_MAX && IsCode(n) && n != 0 then Some(n) else None
  }

  /** What follows a tag, less the single space after it. */
  function AfterTag(rest: string, at: nat, digits: string): (after: string)
    requires at + |TAG_OPEN| + |digits| < |rest|
    ensures |after| < |rest|
  {
    var after := rest[at + |TAG_OPEN| + |digits| + 1..];
    if after != "" && after[0] == ' ' then after[1..] else after
  }

  function StripCodeTags(msg: string): string
    decreases |msg|
  {
    match TagFrom(msg, 0)
    case None => msg
    case Some((at, digits)) => msg[..at] + StripCodeTags(AfterTag(msg, at, digits))
  }

  /** Every tag the scan meets removed. None is left unless a removal closes up a new one. */
  method StripTags(msg: string) returns (out: string)
    ensures out == StripCodeTags(msg)
    ensures out == msg <==> NoTag(msg)
    ensures NoTag(out) <==> !SomeSeamCloses(msg)
  {
    StripFixed(msg);
    StripExact(msg);
    out := "";
    var rest := msg;
    while true
      invariant StripCodeTags(msg) == out + StripCodeTags(rest)
      decreases |rest|
    {
      var tag := TagDigits(rest);
      if tag.None? {
        break;
      }
      var (at, digits) := tag.value;
      Reassociate(out, rest[..at], StripCodeTags(AfterTag(rest, at, digits)));
      out := out + rest[..at];
      rest := AfterTag(rest, at, digits);
    }
    out := out + rest;
  }

  // ----- what a tag is

  /** The text of a tag with these digits stands at `at`. */
  predicate IsTag(msg: string, at: nat, digits: string) {
    && digits != "" && AllDigits(digits)
    && Occurs(msg, TAG_OPEN, at) && Occurs(msg, digits, at + |TAG_OPEN|)
    && Occurs(msg, "]", at + |TAG_OPEN| + |digits|)
  }

  ghost predicate NoTag(msg: string) {
    forall at: nat, digits: string :: !IsTag(msg, at, digits)
  }

  predicate TagFree(s: string) {
    forall i :: 0 <= i < |s| ==> !Occurs(s, TAG_OPEN, i)
  }

  /** An opening can only be found at the start of a tag: its bracket occurs nowhere inside it. */
  lemma OpeningsDoNotOverlap(text: string, i: nat, at: nat)
    requires Occurs(text, TAG_OPEN, i) && Occurs(text, TAG_OPEN, at) && i < at
    ensures i + |TAG_OPEN| <= at
  {
    assert text[at + 0] == TAG_OPEN[0];
    if at < i + |TAG_OPEN| {
      NoBracketInside(text, i, at);
    }
  }

  lemma NoBracketInside(text: string, i: nat, at: nat)
    requires Occurs(text, TAG_OPEN, i) && i < at < i + |TAG_OPEN|
    ensures text[at] != '['
  {
    assert text[i + (at - i)] == TAG_OPEN[at - i];
  }

  lemma OccursWithin(head: string, tail: string, piece: string, i: nat)
    requires i + |piece| <= |head|
    ensures Occurs(head + tail, piece, i) <==> Occurs(head, piece, i)
  {
    forall j | 0 <= j < |piece|
      ensures (head + tail)[i + j] == piece[j] <==> head[i + j] == piece[j]
    {
    }
  }

  /** A tag's digits are what stands before the first bracket after its opening. */
  lemma DigitsBeforeBracket(msg: string, at: nat, digits: string, end: nat)
    requires IsTag(msg, at, digits) && Find(msg, "]", at + |TAG_OPEN|) == Some(end)
    ensures end == at + |TAG_OPEN| + |digits| && msg[at + |TAG_OPEN|..end] == digits
  {
    var start := at + |TAG_OPEN|;
    FindIsFirst(msg, "]", start);
    forall i | start <= i < start + |digits|
      ensures !Occurs(msg, "]", i)
    {
      assert msg[start + (i - start)] == digits[i - start];
      assert msg[i + 0] != "]"[0];
    }
    assert end == start + |digits|;
    assert forall j :: 0 <= j < |digits| ==> msg[start + j] == digits[j];
  }

  lemma TagAtBracket(msg: string, at: nat, end: nat)
    requires Occurs(msg, TAG_OPEN, at) && Occurs(msg, "]", end) && at + |TAG_OPEN| < end
    requires AllDigits(msg[at + |TAG_OPEN|..end])
    ensures IsTag(msg, at, msg[at + |TAG_OPEN|..end])
  {
  }

  /** The scan finds the first tag at or after its start, and nothing exactly when there is none. */
  lemma {:induction false} TagFromIsFirst(msg: string, from: nat)
    ensures var r := TagFrom(msg, from);
            && (r.Some? ==> from <= r.value.0 && IsTag(msg, r.value.0, r.value.1))
            && forall i: nat, digits: string :: from <= i && (r.None? || i < r.value.0) ==> !IsTag(msg, i, digits)
    decreases |msg| - from
  {
    FindIsFirst(msg, TAG_OPEN, from);
    var found := Find(msg, TAG_OPEN, from);
    if found.Some? {
      var at, start := found.value, found.value + |TAG_OPEN|;
      FindIsFirst(msg, "]", start);
      var end := Find(msg, "]", start);
      if end.Some? {
        if msg[start..end.value] != "" && AllDigits(msg[start..end.value]) {
          TagAtBracket(msg, at, end.value);
        } else {
          TagFromIsFirst(msg, start);
          NotATag(msg, from, at, end.value);
          forall i: nat, digits: string | from <= i < start
            ensures !IsTag(msg, i, digits)
          {
            NoTagBefore(msg, from, at, end.value, i, digits);
          }
        }
      } else {
        forall i: nat, digits: string | from <= i
          ensures !IsTag(msg, i, digits)
        {
          assert Occurs(msg, TAG_OPEN, i) ==> at <= i;
        }
      }
    }
  }

  lemma NoTagBefore(msg: string, from: nat, at: nat, end: nat, i: nat, digits: string)
    requires Find(msg, TAG_OPEN, from) == Some(at) && Find(msg, "]", at + |TAG_OPEN|) == Some(end)
    requires msg[at + |TAG_OPEN|..end] == "" || !AllDigits(msg[at + |TAG_OPEN|..end])
    requires from <= i < at + |TAG_OPEN|
    ensures !IsTag(msg, i, digits)
  {
    FindIsFirst(msg, TAG_OPEN, from);
    if IsTag(msg, i, digits) {
      if i == at {
        DigitsBeforeBracket(msg, at, digits, end);
      } else {
        OpeningsDoNotOverlap(msg, at, i);
      }
    }
  }

  /** The code is read from the first tag of the text: its number, when that is a code other than Unspecified. */
  lemma CodeExact(msg: string, code: int)
    ensures CodeOfTaggedMessage(msg) == Some(code)
            <==> exists at: nat, digits: string ::
                   && IsTag(msg, at, digits) && (forall i: nat, d: string :: i < at ==> !IsTag(msg, i, d))
                   && Number(digits) == code && IsCode(code) && code != 0
  {
    TagFromIsFirst(msg, 0);
    var r := TagFrom(msg, 0);
    forall at: nat, digits: string | IsTag(msg, at, digits) && (forall i: nat, d: string :: i < at ==> !IsTag(msg, i, d))
      ensures r == Some((at, digits))
    {
      TagFromUnique(msg, at, digits);
    }
  }

  // ----- a tag is found where it was written

  /** The tag of a text whose head has no opening is read first. */
  lemma {:induction false} TagFoundAfterHead(head: string, code: nat, tail: string)
    requires TagFree(head)
    ensures TagFrom(head + (TagOf(code) + tail), 0) == Some((|head|, Decimal(code)))
  {
    var digits := Decimal(code);
    var text := head + (TagOf(code) + tail);
    var at, start := |head|, |head| + |TAG_OPEN|;
    assert text == head + TAG_OPEN + digits + "]" + tail;
    OpeningFound(head, digits + "]" + tail, text);
    BracketFound(head + TAG_OPEN, digits, tail, text);
    assert text[start..start + |digits|] == digits;
  }

  lemma OpeningFound(head: string, rest: string, text: string)
    requires TagFree(head) && text == head + TAG_OPEN + rest
    ensures Find(text, TAG_OPEN, 0) == Some(|head|)
  {
    assert text == head + (TAG_OPEN + rest);
    FindIsFirst(text, TAG_OPEN, 0);
    assert Occurs(text, TAG_OPEN, |head|);
    forall i: nat | i < |head|
      ensures !Occurs(text, TAG_OPEN, i)
    {
      if Occurs(text, TAG_OPEN, i) {
        OpeningsDoNotOverlap(text, i, |head|);
        OccursWithin(head, TAG_OPEN + rest, TAG_OPEN, i);
      }
    }
  }

  lemma BracketFound(before: string, digits: string, tail: string, text: string)
    requires AllDigits(digits) && text == before + digits + "]" + tail
    ensures Find(text, "]", |before|) == Some(|before| + |digits|)
  {
    var end := |before| + |digits|;
    FindIsFirst(text, "]", |before|);
    assert Occurs(text, "]", end);
    forall i | |before| <= i < end
      ensures !Occurs(text, "]", i)
    {
      assert text[i + 0] == digits[i - |before|];
      assert "]"[0] == ']' && IsDigit(digits[i - |before|]);
    }
  }

  lemma CodeFound(head: string, code: nat, tail: string)
    requires TagFree(head) && IsCode(code) && code != 0
    ensures CodeOfTaggedMessage(head + (TagOf(code) + tail)) == Some(code)
  {
    TagFoundAfterHead(head, code, tail);
    NumberOfDecimal(code);
  }

  /** Stripping a freshly tagged message is stripping the message. */
  lemma StripUndoesTag(code: nat, message: string)
    ensures StripCodeTags(TaggedMessage(code, message)) == StripCodeTags(message)
  {
    var tagged := TaggedMessage(code, message);
    TagFoundAfterHead("", code, " " + message);
    assert tagged == "" + (TagOf(code) + (" " + message));
    assert AfterTag(tagged, 0, Decimal(code)) == message;
    assert tagged[..0] == "";
  }

  // ----- what stripping leaves

  lemma TagFromUnique(msg: string, at: nat, digits: string)
    requires IsTag(msg, at, digits) && forall i: nat, d: string :: i < at ==> !IsTag(msg, i, d)
    ensures TagFrom(msg, 0) == Some((at, digits))
  {
    TagFromIsFirst(msg, 0);
    SameDigits(msg, at, digits, TagFrom(msg, 0).value.1);
  }

  lemma SameDigits(msg: string, at: nat, a: string, b: string)
    requires IsTag(msg, at, a) && IsTag(msg, at, b)
    ensures a == b
  {
    var start := at + |TAG_OPEN|;
    FindIsFirst(msg, "]", start);
    DigitsBeforeBracket(msg, at, a, Find(msg, "]", start).value);
    DigitsBeforeBracket(msg, at, b, Find(msg, "]", start).value);
  }

  /** Stripping leaves a text alone exactly when it has no tag. */
  lemma StripFixed(msg: string)
    ensures StripCodeTags(msg) == msg <==> NoTag(msg)
  {
    TagFromIsFirst(msg, 0);
    var r := TagFrom(msg, 0);
    if r.Some? {
      StripShrinks(AfterTag(msg, r.value.0, r.value.1));
      assert |StripCodeTags(msg)| < |msg|;
      assert IsTag(msg, r.value.0, r.value.1);
    }
  }

  lemma {:induction false} StripShrinks(msg: string)
    ensures |StripCodeTags(msg)| <= |msg|
    decreases |msg|
  {
    var r := TagFrom(msg, 0);
    if r.Some? {
      StripShrinks(AfterTag(msg, r.value.0, r.value.1));
    }
  }

  /** A text that a tag begins with. */
  predicate BeginsTag(s: string) {
    s <= TAG_OPEN || (TAG_OPEN <= s && AllDigits(s[|TAG_OPEN|..]))
  }

  /** The text does not break off inside a tag: none of its brackets begins one that runs to the end. */
  predicate Sealed(head: string) {
    forall i :: 0 <= i < |head| && head[i] == '[' ==> !BeginsTag(head[i..])
  }

  /** Every piece of text before a removed tag is sealed, so what follows cannot complete a tag in it. */
  predicate SeamsSealed(msg: string)
    decreases |msg|
  {
    match TagFrom(msg, 0)
    case None => true
    case Some((at, digits)) => Sealed(msg[..at]) && SeamsSealed(AfterTag(msg, at, digits))
  }

  lemma TagCutShort(head: string, tail: string, at: nat, digits: string)
    requires IsTag(head + tail, at, digits) && at < |head| <= at + |TAG_OPEN| + |digits|
    ensures head[at] == '[' && BeginsTag(head[at..])
  {
    var msg, rest := head + tail, head[at..];
    assert head[at] == msg[at + 0] == TAG_OPEN[0];
    forall i | 0 <= i < |rest| && i < |TAG_OPEN|
      ensures rest[i] == TAG_OPEN[i]
    {
      assert rest[i] == msg[at + i];
    }
    if |rest| <= |TAG_OPEN| {
      assert rest <= TAG_OPEN;
    } else {
      assert TAG_OPEN <= rest;
      forall i | 0 <= i < |rest| - |TAG_OPEN|
        ensures IsDigit(rest[|TAG_OPEN|..][i])
      {
        assert rest[|TAG_OPEN|..][i] == msg[at + |TAG_OPEN| + i] == digits[i];
      }
    }
  }

  lemma TagOfJoin(head: string, tail: string, at: nat, digits: string)
    requires IsTag(head + tail, at, digits)
    ensures || (at + |TAG_OPEN| + |digits| < |head| && IsTag(head, at, digits))
            || (|head| <= at && IsTag(tail, at - |head|, digits))
            || (at < |head| <= at + |TAG_OPEN| + |digits|)
  {
    if at + |TAG_OPEN| + |digits| < |head| {
      OccursWithin(head, tail, TAG_OPEN, at);
      OccursWithin(head, tail, digits, at + |TAG_OPEN|);
      OccursWithin(head, tail, "]", at + |TAG_OPEN| + |digits|);
    } else if |head| <= at {
      OccursPast(head, tail, TAG_OPEN, at);
      OccursPast(head, tail, digits, at + |TAG_OPEN|);
      OccursPast(head, tail, "]", at + |TAG_OPEN| + |digits|);
    }
  }

  lemma OccursPast(head: string, tail: string, piece: string, at: nat)
    requires Occurs(head + tail, piece, at) && |head| <= at
    ensures Occurs(tail, piece, at - |head|)
  {
    forall j | 0 <= j < |piece|
      ensures tail[at - |head| + j] == piece[j]
    {
      assert (head + tail)[at + j] == piece[j];
    }
  }

  /** Two texts without tags join to one without, when the first is sealed. */
  lemma SealedJoin(head: string, tail: string)
    requires NoTag(head) && NoTag(tail) && Sealed(head)
    ensures NoTag(head + tail)
  {
    forall at: nat, digits: string
      ensures !IsTag(head + tail, at, digits)
    {
      if IsTag(head + tail, at, digits) {
        TagOfJoin(head, tail, at, digits);
        if at < |head| <= at + |TAG_OPEN| + |digits| {
          TagCutShort(head, tail, at, digits);
        }
      }
    }
  }

  lemma NoTagBeforeFirst(msg: string)
    requires TagFrom(msg, 0).Some?
    ensures NoTag(msg[..TagFrom(msg, 0).value.0])
  {
    TagFromIsFirst(msg, 0);
    var at := TagFrom(msg, 0).value.0;
    assert msg[..at] + msg[at..] == msg;
    forall i: nat, digits: string
      ensures !IsTag(msg[..at], i, digits)
    {
      if IsTag(msg[..at], i, digits) {
        TagStays(msg[..at], msg[at..], msg, i, digits);
      }
    }
  }

  lemma TagStays(head: string, tail: string, msg: string, at: nat, digits: string)
    requires IsTag(head, at, digits) && msg == head + tail
    ensures IsTag(msg, at, digits) && at < |head|
  {
    OccursWithin(head, tail, TAG_OPEN, at);
    OccursWithin(head, tail, digits, at + |TAG_OPEN|);
    OccursWithin(head, tail, "]", at + |TAG_OPEN| + |digits|);
  }

  /** However many tags, none is left when no removal can close up a new one. */
  lemma {:induction false} StripLeavesNoTag(msg: string)
    requires SeamsSealed(msg)
    ensures NoTag(StripCodeTags(msg))
    decreases |msg|
  {
    TagFromIsFirst(msg, 0);
    var r := TagFrom(msg, 0);
    if r.Some? {
      var after := AfterTag(msg, r.value.0, r.value.1);
      StripLeavesNoTag(after);
      NoTagBeforeFirst(msg);
      SealedJoin(msg[..r.value.0], StripCodeTags(after));
    }
  }

  /** The end of `head` and the start of `tail` make a tag between them. */
  ghost predicate SeamCloses(head: string, tail: string) {
    exists i: nat, digits: string ::
      i < |head| && head[i] == '[' && BeginsTag(head[i..]) && IsTag(head[i..] + tail, 0, digits)
  }

  lemma TagShifted(head: string, tail: string, msg: string, at: nat, digits: string)
    requires IsTag(tail, at, digits) && msg == head + tail
    ensures IsTag(msg, |head| + at, digits)
  {
    OccursAfter(head, tail, TAG_OPEN, at);
    OccursAfter(head, tail, digits, at + |TAG_OPEN|);
    OccursAfter(head, tail, "]", at + |TAG_OPEN| + |digits|);
  }

  lemma OccursAfter(head: string, tail: string, piece: string, at: nat)
    requires Occurs(tail, piece, at)
    ensures Occurs(head + tail, piece, |head| + at)
  {
    forall j | 0 <= j < |piece|
      ensures (head + tail)[|head| + at + j] == piece[j]
    {
      assert tail[at + j] == piece[j];
    }
  }

  lemma TagFromStart(msg: string, at: nat, digits: string)
    requires IsTag(msg, at, digits)
    ensures IsTag(msg[at..], 0, digits)
  {
    assert msg[..at] + msg[at..] == msg;
    OccursPast(msg[..at], msg[at..], TAG_OPEN, at);
    OccursPast(msg[..at], msg[at..], digits, at + |TAG_OPEN|);
    OccursPast(msg[..at], msg[at..], "]", at + |TAG_OPEN| + |digits|);
  }

  /** When joining two texts makes a tag, the first having none of its own. */
  lemma JoinExact(head: string, tail: string)
    requires NoTag(head)
    ensures NoTag(head + tail) <==> NoTag(tail) && !SeamCloses(head, tail)
  {
    var msg := head + tail;
    if NoTag(msg) {
      forall at: nat, digits: string
        ensures !IsTag(tail, at, digits)
      {
        if IsTag(tail, at, digits) {
          TagShifted(head, tail, msg, at, digits);
        }
      }
      forall i: nat, digits: string | i < |head|
        ensures !IsTag(head[i..] + tail, 0, digits)
      {
        if IsTag(head[i..] + tail, 0, digits) {
          assert msg == head[..i] + (head[i..] + tail);
          TagShifted(head[..i], head[i..] + tail, msg, 0, digits);
        }
      }
    } else {
      var at: nat, digits: string :| IsTag(msg, at, digits);
      TagOfJoin(head, tail, at, digits);
      if at < |head| <= at + |TAG_OPEN| + |digits| {
        TagCutShort(head, tail, at, digits);
        TagFromStart(msg, at, digits);
        assert msg[at..] == head[at..] + tail;
      }
    }
  }

  /** Somewhere along the text, removing a tag closes the text before it up with what is left after it. */
  ghost predicate SomeSeamCloses(msg: string)
    decreases |msg|
  {
    match TagFrom(msg, 0)
    case None => false
    case Some((at, digits)) =>
      var after := AfterTag(msg, at, digits);
      SeamCloses(msg[..at], StripCodeTags(after)) || SomeSeamCloses(after)
  }

  /** For every text: stripping leaves a tag exactly when one of its removals closes one up. */
  lemma {:induction false} StripExact(msg: string)
    ensures NoTag(StripCodeTags(msg)) <==> !SomeSeamCloses(msg)
    decreases |msg|
  {
    TagFromIsFirst(msg, 0);
    var r := TagFrom(msg, 0);
    if r.Some? {
      var after := AfterTag(msg, r.value.0, r.value.1);
      StripExact(after);
      NoTagBeforeFirst(msg);
      JoinExact(msg[..r.value.0], StripCodeTags(after));
    }
  }

  /** A removal that closes up a new tag: stripping does not always leave none. */
  lemma StripCanLeaveTag()
    ensures StripCodeTags("[VDB-[VDB-1] 2]") == "[VDB-2]" && !NoTag("[VDB-2]")
  {
    var msg := "[VDB-[VDB-1] 2]";
    assert IsTag(msg, 5, "1");
    forall i: nat, d: string | i < 5
      ensures !IsTag(msg, i, d)
    {
      assert Occurs(msg, TAG_OPEN, i) ==> msg[i + 0] == TAG_OPEN[0];
      assert d != "" && Occurs(msg, d, 5) ==> msg[5 + 0] == d[0];
    }
    TagFromUnique(msg, 5, "1");
    var after := AfterTag(msg, 5, "1");
    assert msg[12..] == " 2]";
    assert after == "2]";
    TagFromIsFirst(after, 0);
    assert StripCodeTags(after) == after by {
      StripFixed(after);
    }
    assert msg[..5] == "[VDB-";
    assert IsTag("[VDB-2]", 0, "2");
  }

  // ----- a tag survives rendering

  lemma {:induction false} EscapeConcat(a: string, b: string)
    ensures Escape(a + b) == Escape(a) + Escape(b)
  {
    if a == "" {
      assert a + b == b;
    } else {
      assert (a + b)[1..] == a[1..] + b;
      EscapeConcat(a[1..], b);
    }
  }

  /** Characters no rendering escapes. */
  predicate Unescapable(c: char) {
    EscapeChar(c) == [c]
  }

  lemma {:induction false} EscapeLeaves(s: string)
    requires forall i :: 0 <= i < |s| ==> Unescapable(s[i])
    ensures Escape(s) == s
  {
    if s == "" {
    } else {
      EscapeLeaves(s[1..]);
    }
  }

  lemma TagNotEscaped(code: nat)
    ensures Escape(TagOf(code)) == TagOf(code)
  {
    var tag, digits := TagOf(code), Decimal(code);
    forall i | 0 <= i < |tag|
      ensures Unescapable(tag[i])
    {
      if |TAG_OPEN| <= i < |TAG_OPEN| + |digits| {
        assert tag[i] == digits[i - |TAG_OPEN|];
      }
    }
    EscapeLeaves(tag);
  }

  /** The first character of an escape is the character itself or a backslash. */
  lemma EscapeStarts(c: char)
    ensures var e := EscapeChar(c);
            |e| > 0 && (e[0] == '\\' || e == [c])
  {
  }

  /** An opening bracket appears in an escape only as itself. */
  lemma BracketFromItself(c: char, i: nat)
    requires i < |EscapeChar(c)| && EscapeChar(c)[i] == '['
    ensures c == '[' && i == 0
  {
  }

  /** Text without a backslash that starts a rendering starts what was rendered. */
  lemma {:induction false} PlainStart(s: string, piece: string)
    requires Occurs(Escape(s), piece, 0) && forall i :: 0 <= i < |piece| ==> piece[i] != '\\'
    ensures Occurs(s, piece, 0)
  {
    if piece == "" {
    } else {
      assert s != "";
      EscapeStarts(s[0]);
      var e, tail := EscapeChar(s[0]), Escape(s[1..]);
      assert Escape(s)[0 + 0] == piece[0];
      assert e == [s[0]];
      forall i | 0 <= i < |piece[1..]|
        ensures tail[0 + i] == piece[1..][i]
      {
        assert Escape(s)[0 + (i + 1)] == piece[i + 1];
      }
      PlainStart(s[1..], piece[1..]);
      forall i | 0 <= i < |piece|
        ensures s[0 + i] == piece[i]
      {
        if i > 0 {
          assert s[1..][0 + (i - 1)] == piece[1..][i - 1];
        }
      }
    }
  }

  /** Rendering creates no opening that was not there. */
  lemma {:induction false} EscapeKeepsTagFree(s: string, i: nat)
    requires Occurs(Escape(s), TAG_OPEN, i)
    ensures exists k :: 0 <= k < |s| && Occurs(s, TAG_OPEN, k)
  {
    if s == "" {
    } else {
      var e, tail := EscapeChar(s[0]), Escape(s[1..]);
      if |e| <= i {
        forall j | 0 <= j < |TAG_OPEN|
          ensures tail[i - |e| + j] == TAG_OPEN[j]
        {
          assert Escape(s)[i + j] == TAG_OPEN[j];
        }
        EscapeKeepsTagFree(s[1..], i - |e|);
        var k :| 0 <= k < |s[1..]| && Occurs(s[1..], TAG_OPEN, k);
        OccursLater(s, TAG_OPEN, k);
      } else {
        assert Escape(s)[i + 0] == TAG_OPEN[0];
        BracketFromItself(s[0], i);
        PlainStart(s, TAG_OPEN);
      }
    }
  }

  lemma OccursLater(s: string, piece: string, k: nat)
    requires s != "" && Occurs(s[1..], piece, k)
    ensures Occurs(s, piece, k + 1)
  {
    forall j | 0 <= j < |piece|
      ensures s[k + 1 + j] == piece[j]
    {
      assert s[1..][k + j] == piece[j];
    }
  }

  /** One wrapping of a text in a rendering: leading text, then the text quoted, then the rest. */
  datatype Wrapper = Wrapper(leading: string, trailing: string)

  function Wrap(w: Wrapper, text: string): string {
    w.leading + ("\"" + Escape(text) + "\"" + w.trailing)
  }

  function WrapAll(ws: seq<Wrapper>, text: string): string {
    if ws == [] then text else Wrap(ws[0], WrapAll(ws[1..], text))
  }

  lemma TagFreeAcross(a: string, b: string)
    requires TagFree(a) && TagFree(b)
    ensures TagFree(a + ("\"" + b))
  {
    var whole := a + ("\"" + b);
    assert whole == (a + "\"") + b;
    forall i | 0 <= i < |whole|
      ensures !Occurs(whole, TAG_OPEN, i)
    {
      if Occurs(whole, TAG_OPEN, i) {
        if i + |TAG_OPEN| <= |a| {
          OccursWithin(a, "\"" + b, TAG_OPEN, i);
        } else if i <= |a| {
          QuoteInside(whole, i, |a|);
        } else {
          OccursShifted(a + "\"", b, TAG_OPEN, i);
        }
      }
    }
  }

  lemma QuoteInside(text: string, i: nat, q: nat)
    requires Occurs(text, TAG_OPEN, i) && i <= q < i + |TAG_OPEN|
    ensures text[q] != '"'
  {
    assert text[i + (q - i)] == TAG_OPEN[q - i];
  }

  lemma OccursShifted(head: string, tail: string, piece: string, i: nat)
    requires Occurs(head + tail, piece, i) && |head| <= i
    ensures Occurs(tail, piece, i - |head|)
  {
    forall j | 0 <= j < |piece|
      ensures tail[i - |head| + j] == piece[j]
    {
      assert (head + tail)[i + j] == piece[j];
    }
  }

  lemma EscapedHeadTagFree(head: string)
    requires TagFree(head)
    ensures TagFree(Escape(head))
  {
    forall i | 0 <= i < |Escape(head)|
      ensures !Occurs(Escape(head), TAG_OPEN, i)
    {
      if Occurs(Escape(head), TAG_OPEN, i) {
        EscapeKeepsTagFree(head, i);
      }
    }
  }

  /** However many wrappings, the text is still a tag-free head, the tag, and the rest. */
  lemma {:induction false} TagCarried(ws: seq<Wrapper>, code: nat, message: string)
    returns (head: string, tail: string)
    requires forall w <- ws :: TagFree(w.leading)
    ensures TagFree(head) && WrapAll(ws, TaggedMessage(code, message)) == head + (TagOf(code) + tail)
  {
    if ws == [] {
      head, tail := "", " " + message;
      assert TaggedMessage(code, message) == head + (TagOf(code) + tail);
    } else {
      var h, t := TagCarried(ws[1..], code, message);
      var tag := TagOf(code);
      EscapeConcat(h, tag + t);
      EscapeConcat(tag, t);
      TagNotEscaped(code);
      EscapedHeadTagFree(h);
      assert TagFree(ws[0].leading);
      TagFreeAcross(ws[0].leading, Escape(h));
      head := ws[0].leading + ("\"" + Escape(h));
      tail := Escape(t) + "\"" + ws[0].trailing;
      Regroup(ws[0].leading, Escape(h), tag, Escape(t), ws[0].trailing);
    }
  }

  lemma Regroup(leading: string, h: string, tag: string, t: string, trailing: string)
    ensures leading + ("\"" + (h + (tag + t)) + "\"" + trailing)
            == (leading + ("\"" + h)) + (tag + (t + "\"" + trailing))
  {
  }

  /**
   A code survives any number of renderings whose leading text has no opening of its own: it
   is read back out of the raw text, still escaped.
   */
  lemma TagSurvivesRendering(ws: seq<Wrapper>, code: nat, message: string)
    requires (forall w <- ws :: TagFree(w.leading)) && IsCode(code) && code != 0
    ensures CodeOfTaggedMessage(WrapAll(ws, TaggedMessage(code, message))) == Some(code)
  {
    var head, tail := TagCarried(ws, code, message);
    CodeFound(head, code, tail);
  }
}
