/**
 Reading a Rust `Debug` rendering back out of text: where a quoted string or a nested
 structure ends, and undoing one level of escaping. The renderer's own escaping is defined
 beside them, so that scanning can be stated as its inverse.
 */
module Scan {
  import opened Numeric

  /** How many layers of rendering are peeled off. */
  const MAX_TRANSPORT_LAYERS: nat := 8

  // ----- escaping, as the renderer does it

  /** The ASCII control characters other than tab, newline and carriage return, and DEL. */
  predicate IsControl(c: char) {
    (c < ' ' && c != '\n' && c != '\t' && c != '\r') || c == '\U{7f}'
  }

  function HexDigit(n: int): char
    requires 0 <= n < 16
  {
    "0123456789abcdef"[n]
  }

  function Hex(c: char): (h: string)
    requires IsControl(c)
    ensures 1 <= |h| <= 2 && Inert(h)
  {
    var n := c as int;
    if n < 16 then [HexDigit(n)] else [HexDigit(n / 16), HexDigit(n % 16)]
  }

  /** One character of a `Debug`-rendered string. */
  function EscapeChar(c: char): string {
    if c == '\\' then "\\\\"
    else if c == '"' then "\\\""
    else if c == '\n' then "\\n"
    else if c == '\t' then "\\t"
    else if c == '\r' then "\\r"
    else if c == '\0' then "\\0"
    else if IsControl(c) then "\\u{" + Hex(c) + "}"
    else [c]
  }

  function Escape(s: string): string {
    if s == "" then "" else EscapeChar(s[0]) + Escape(s[1..])
  }

  // ----- one level of unescaping

  /** What the character after a backslash stands for. */
  function Unescaped(c: char): char {
    match c
    case 'n' => '\n'
    case 't' => '\t'
    case 'r' => '\r'
    case _ => c
  }

  function Unescape(s: string): string {
    if s == "" then ""
    else if s[0] != '\\' then [s[0]] + Unescape(s[1..])
    else if |s| == 1 then "\\"
    else [Unescaped(s[1])] + Unescape(s[2..])
  }

  lemma {:induction false} UnescapeAt(s: string, i: nat)
    requires i < |s|
    ensures s[i] != '\\' ==> Unescape(s[i..]) == [s[i]] + Unescape(s[i + 1..])
    ensures s[i] == '\\' && i + 1 < |s| ==> Unescape(s[i..]) == [Unescaped(s[i + 1])] + Unescape(s[i + 2..])
    ensures s[i] == '\\' && i + 1 == |s| ==> Unescape(s[i..]) == "\\" + Unescape(s[i + 1..])
  {
    assert s[i..][1..] == s[i + 1..];
    if i + 1 < |s| {
      assert s[i..][2..] == s[i + 2..];
    }
  }

  lemma Reassociate(out: string, head: string, rest: string)
    ensures out + (head + rest) == (out + head) + rest
  {
  }

  method UnescapeText(s: string) returns (out: string)
    ensures out == Unescape(s)
  {
    out := "";
    var i := 0;
    while i < |s|
      invariant 0 <= i <= |s|
      invariant Unescape(s) == out + Unescape(s[i..])
    {
      UnescapeAt(s, i);
      var start, head := i, "\\";
      if s[i] != '\\' {
        head, i := [s[i]], i + 1;
      } else if i + 1 < |s| {
        head, i := [Unescaped(s[i + 1])], i + 2;
      } else {
        i := i + 1;
      }
      assert Unescape(s[start..]) == head + Unescape(s[i..]);
      Reassociate(out, head, Unescape(s[i..]));
      out := out + head;
    }
  }

  /** What one escaped character is read back as. */
  function ReadBack(c: char): string {
    if c == '\0' then "0" else if IsControl(c) then "u{" + Hex(c) + "}" else [c]
  }

  /** Text without a backslash or a quote, which every scan here walks straight through. */
  predicate Inert(t: string) {
    forall i :: 0 <= i < |t| ==> t[i] != '\\' && t[i] != '"'
  }

  lemma {:induction false} UnescapeInert(t: string, rest: string)
    requires Inert(t)
    ensures Unescape(t + rest) == t + Unescape(rest)
  {
    if t == "" {
      assert t + rest == rest;
    } else {
      assert (t + rest)[1..] == t[1..] + rest;
      UnescapeInert(t[1..], rest);
    }
  }

  lemma UnescapePair(x: char, rest: string)
    ensures Unescape(['\\', x] + rest) == [Unescaped(x)] + Unescape(rest)
  {
    assert (['\\', x] + rest)[2..] == rest;
  }

  lemma UnescapeMarked(x: char, body: string, rest: string)
    requires Inert(body)
    ensures Unescape((['\\', x] + body) + rest) == ([Unescaped(x)] + body) + Unescape(rest)
  {
    Reassociate(['\\', x], body, rest);
    UnescapePair(x, body + rest);
    UnescapeInert(body, rest);
    Reassociate([Unescaped(x)], body, Unescape(rest));
  }

  lemma UnescapeControl(c: char, rest: string)
    requires IsControl(c) && EscapeChar(c) == ['\\', 'u'] + ReadBack(c)[1..] && ReadBack(c) != "" && ReadBack(c)[0] == 'u'
    requires Inert(ReadBack(c)[1..])
    ensures Unescape(EscapeChar(c) + rest) == ReadBack(c) + Unescape(rest)
  {
    UnescapeMarked('u', ReadBack(c)[1..], rest);
    assert ReadBack(c) == ['u'] + ReadBack(c)[1..];
  }

  lemma ControlShape(c: char)
    requires IsControl(c) && c != '\0'
    ensures EscapeChar(c) == ['\\', 'u'] + ReadBack(c)[1..] && ReadBack(c) != "" && ReadBack(c)[0] == 'u'
    ensures Inert(ReadBack(c)[1..])
  {
    var body := "{" + Hex(c) + "}";
    assert ReadBack(c)[1..] == body;
  }

  lemma {:induction false} UnescapeOne(c: char, rest: string)
    ensures Unescape(EscapeChar(c) + rest) == ReadBack(c) + Unescape(rest)
  {
    if c == '\\' || c == '"' {
      UnescapePair(c, rest);
    } else if c == '\n' {
      UnescapePair('n', rest);
    } else if c == '\t' {
      UnescapePair('t', rest);
    } else if c == '\r' {
      UnescapePair('r', rest);
    } else if c == '\0' {
      UnescapePair('0', rest);
    } else if IsControl(c) {
      ControlShape(c);
      UnescapeControl(c, rest);
    } else {
      UnescapeInert([c], rest);
    }
  }

  /** No control characters but newline, tab and carriage return, which have escapes of their own. */
  predicate Restorable(s: string) {
    forall c <- s :: (' ' <= c && c != '\U{7f}') || c == '\n' || c == '\t' || c == '\r'
  }

  /**
   Unescaping undoes escaping exactly on the strings without control characters: the five
   two-character escapes come back, `\0` and `\u{..}` do not.
   */
  lemma {:induction false} EscapeRoundTrip(s: string)
    ensures Unescape(Escape(s)) == s <==> Restorable(s)
  {
    if s == "" {
    } else {
      UnescapeOne(s[0], Escape(s[1..]));
      EscapeRoundTrip(s[1..]);
      var back := ReadBack(s[0]) + Unescape(Escape(s[1..]));
      assert s == [s[0]] + s[1..];
      if IsControl(s[0]) {
        assert back[0] != s[0];
        assert s[0] in s;
      } else {
        assert back[1..] == Unescape(Escape(s[1..]));
        assert forall c <- s :: c == s[0] || c in s[1..];
        assert forall c <- s[1..] :: c in s;
      }
    }
  }

  // ----- the end of a string literal

  /** `piece` is what `text` holds at `at`. */
  predicate Occurs(text: string, piece: string, at: nat) {
    at + |piece| <= |text| && forall i :: 0 <= i < |piece| ==> text[at + i] == piece[i]
  }

  lemma OccursParts(text: string, a: string, b: string, at: nat)
    requires Occurs(text, a + b, at)
    ensures Occurs(text, a, at) && Occurs(text, b, at + |a|)
  {
    forall i | 0 <= i < |a|
      ensures text[at + i] == a[i]
    {
      assert (a + b)[i] == a[i];
    }
    forall i | 0 <= i < |b|
      ensures text[at + |a| + i] == b[i]
    {
      assert (a + b)[|a| + i] == b[i];
    }
  }

  /** `str::find` from an offset. */
  function Find(text: string, needle: string, from: nat): (r: Option<nat>)
    ensures r.Some? ==> from <= r.value && r.value + |needle| <= |text|
    decreases |text| - from
  {
    if from + |needle| > |text| then None
    else if Occurs(text, needle, from) then Some(from)
    else Find(text, needle, from + 1)
  }

  lemma {:induction false} FindIsFirst(text: string, needle: string, from: nat)
    ensures var r := Find(text, needle, from);
            && (r.Some? ==> Occurs(text, needle, r.value))
            && forall i :: from <= i && Occurs(text, needle, i) ==> r.Some? && r.value <= i
    decreases |text| - from
  {
    if from + |needle| <= |text| && !Occurs(text, needle, from) {
      FindIsFirst(text, needle, from + 1);
    }
  }

  /** The offset of the first unescaped quote at or after `i`, `escaped` saying how `i` is read. */
  function LiteralEnd(s: string, i: nat, escaped: bool): (r: Option<nat>)
    requires i <= |s|
    ensures r.Some? ==> i <= r.value < |s| && s[r.value] == '"'
    decreases |s| - i
  {
    if i == |s| then None
    else if escaped then LiteralEnd(s, i + 1, false)
    else if s[i] == '\\' then LiteralEnd(s, i + 1, true)
    else if s[i] == '"' then Some(i)
    else LiteralEnd(s, i + 1, false)
  }

  method StringLiteralEnd(s: string) returns (r: Option<nat>)
    ensures r == LiteralEnd(s, 0, false)
  {
    var escaped := false;
    for i := 0 to |s|
      invariant LiteralEnd(s, 0, false) == LiteralEnd(s, i, escaped)
    {
      if escaped {
        escaped := false;
      } else if s[i] == '\\' {
        escaped := true;
      } else if s[i] == '"' {
        return Some(i);
      }
    }
    r := None;
  }

  lemma {:induction false} LiteralSkipsInert(text: string, t: string, at: nat)
    requires Occurs(text, t, at) && Inert(t)
    ensures LiteralEnd(text, at, false) == LiteralEnd(text, at + |t|, false)
  {
    if t == "" {
    } else {
      assert [t[0]] + t[1..] == t;
      OccursParts(text, [t[0]], t[1..], at);
      LiteralSkipsInert(text, t[1..], at + 1);
    }
  }

  /** Inert text, or a backslash pair followed by inert text: what a scan walks through whole. */
  predicate Skippable(e: string) {
    Inert(e) || (|e| >= 2 && e[0] == '\\' && Inert(e[2..]))
  }

  lemma {:induction false} LiteralSkips(text: string, e: string, at: nat)
    requires Occurs(text, e, at) && Skippable(e)
    ensures LiteralEnd(text, at, false) == LiteralEnd(text, at + |e|, false)
  {
    if Inert(e) {
      LiteralSkipsInert(text, e, at);
    } else {
      assert e[..2] + e[2..] == e;
      OccursParts(text, e[..2], e[2..], at);
      LiteralSkipsInert(text, e[2..], at + 2);
    }
  }

  function Joined(pieces: seq<string>): string {
    if pieces == [] then "" else pieces[0] + Joined(pieces[1..])
  }

  lemma {:induction false} LiteralSkipsJoined(text: string, pieces: seq<string>, at: nat)
    requires Occurs(text, Joined(pieces), at)
    requires forall i :: 0 <= i < |pieces| ==> Skippable(pieces[i])
    ensures LiteralEnd(text, at, false) == LiteralEnd(text, at + |Joined(pieces)|, false)
  {
    if pieces == [] {
    } else {
      OccursParts(text, pieces[0], Joined(pieces[1..]), at);
      LiteralSkips(text, pieces[0], at);
      LiteralSkipsJoined(text, pieces[1..], at + |pieces[0]|);
    }
  }

  /** A rendered string is one skippable piece per character. */
  lemma {:induction false} EscapePieces(s: string) returns (pieces: seq<string>)
    ensures Joined(pieces) == Escape(s)
    ensures forall i :: 0 <= i < |pieces| ==> Skippable(pieces[i])
  {
    if s == "" {
      pieces := [];
    } else {
      var rest := EscapePieces(s[1..]);
      EscapeCharShape(s[0]);
      pieces := [EscapeChar(s[0])] + rest;
      assert pieces[1..] == rest;
    }
  }

  lemma EscapeCharShape(c: char)
    ensures Skippable(EscapeChar(c))
  {
  }

  /** A rendered literal is walked to its end, whatever the text. */
  lemma LiteralSkipsEscape(text: string, s: string, at: nat)
    requires Occurs(text, Escape(s), at)
    ensures LiteralEnd(text, at, false) == LiteralEnd(text, at + |Escape(s)|, false)
  {
    var pieces := EscapePieces(s);
    LiteralSkipsJoined(text, pieces, at);
  }

  // ----- the end of a nested structure

  datatype Quoting = Ignored | Respected

  datatype DelimiterPair = DelimiterPair(open: char, close: char)

  const PARENS: DelimiterPair := DelimiterPair('(', ')')

  /** Where a nesting scan stands; it starts one level deep, outside any string. */
  datatype Nest = Nest(depth: nat, inString: bool, escaped: bool)

  const OPENED: Nest := Nest(1, false, false)

  /** One character of the scan. A depth of zero is the end. */
  function Advance(st: Nest, c: char, pair: DelimiterPair, quoting: Quoting): Nest {
    if st.escaped then st.(escaped := false)
    else if c == '\\' && st.inString then st.(escaped := true)
    else if c == '"' && quoting == Respected then st.(inString := !st.inString)
    else if st.inString then st
    else if c == pair.open then st.(depth := st.depth + 1)
    else if c == pair.close && st.depth > 0 then st.(depth := st.depth - 1)
    else st
  }

  /** The offset at which the scan from `st` at `i` first reaches depth zero. */
  function NestingEnd(s: string, i: nat, st: Nest, pair: DelimiterPair, quoting: Quoting): (r: Option<nat>)
    requires i <= |s|
    ensures r.Some? ==> i <= r.value < |s|
    decreases |s| - i
  {
    if i == |s| then None
    else
      var next := Advance(st, s[i], pair, quoting);
      if next.depth == 0 then Some(i) else NestingEnd(s, i + 1, next, pair, quoting)
  }

  method EndOfNesting(afterOpen: string, pair: DelimiterPair, quoting: Quoting) returns (r: Option<nat>)
    ensures r == NestingEnd(afterOpen, 0, OPENED, pair, quoting)
  {
    var depth, inString, escaped := 1, false, false;
    for i := 0 to |afterOpen|
      invariant 0 < depth
      invariant NestingEnd(afterOpen, 0, OPENED, pair, quoting)
                == NestingEnd(afterOpen, i, Nest(depth, inString, escaped), pair, quoting)
    {
      var c := afterOpen[i];
      if escaped {
        escaped := false;
      } else if c == '\\' && inString {
        escaped := true;
      } else if c == '"' && quoting == Respected {
        inString := !inString;
      } else if inString {
      } else if c == pair.open {
        depth := depth + 1;
      } else if c == pair.close {
        depth := depth - 1;
        if depth == 0 {
          return Some(i);
        }
      }
    }
    r := None;
  }

  /** The state a scan is in after a text it did not end in, or `None` if it did. */
  function ScanThrough(s: string, st: Nest, pair: DelimiterPair, quoting: Quoting): Option<Nest> {
    if s == "" then Some(st)
    else
      var next := Advance(st, s[0], pair, quoting);
      if next.depth == 0 then None else ScanThrough(s[1..], next, pair, quoting)
  }

  /** A payload balanced in itself: scanning it comes back to where it started. */
  predicate Balanced(s: string, pair: DelimiterPair, quoting: Quoting) {
    ScanThrough(s, OPENED, pair, quoting) == Some(OPENED)
  }

  lemma {:induction false} NestingEndAfter(text: string, s: string, at: nat, st: Nest, pair: DelimiterPair, quoting: Quoting)
    requires Occurs(text, s, at) && ScanThrough(s, st, pair, quoting).Some?
    ensures NestingEnd(text, at, st, pair, quoting)
            == NestingEnd(text, at + |s|, ScanThrough(s, st, pair, quoting).value, pair, quoting)
  {
    if s == "" {
    } else {
      assert [s[0]] + s[1..] == s;
      OccursParts(text, [s[0]], s[1..], at);
      NestingEndAfter(text, s[1..], at + 1, Advance(st, s[0], pair, quoting), pair, quoting);
    }
  }
}
