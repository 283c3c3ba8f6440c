/**
 Peeling every layer of rendering off an error, and the round trip: a message wrapped in up to
 eight layers is recovered exactly, with the variant it was first raised as.
 */
module Recovery {
  import opened Numeric
  import opened Scan
  import opened Markers
  import opened Transported

  // ----- one layer

  /** `char::is_whitespace`. */
  predicate IsWhitespace(c: char) {
    || '\t' <= c <= '\r' || c == ' ' || c == '\U{85}' || c == '\U{a0}' || c == '\U{1680}'
    || '\U{2000}' <= c <= '\U{200a}' || c == '\U{2028}' || c == '\U{2029}' || c == '\U{202f}'
    || c == '\U{205f}' || c == '\U{3000}'
  }

  /** The code points of the Unicode `White_Space` property. */
  const WHITE_SPACE: set<int> := {
    0x9, 0xA, 0xB, 0xC, 0xD, 0x20, 0x85, 0xA0, 0x1680,
    0x2000, 0x2001, 0x2002, 0x2003, 0x2004, 0x2005, 0x2006, 0x2007, 0x2008, 0x2009, 0x200A,
    0x2028, 0x2029, 0x202F, 0x205F, 0x3000
  }

  lemma WhitespaceIs(c: char)
    ensures IsWhitespace(c) <==> c as int in WHITE_SPACE
  {
  }

  /** `str::trim`. */
  function Trim(s: string): string {
    if s == "" then ""
    else if IsWhitespace(s[0]) then Trim(s[1..])
    else if IsWhitespace(s[|s| - 1]) then Trim(s[..|s| - 1])
    else s
  }

  /** No whitespace at either end. */
  predicate NoEdgeWhitespace(s: string) {
    s != "" ==> !IsWhitespace(s[0]) && !IsWhitespace(s[|s| - 1])
  }

  /** What is trimmed is whitespace, all of it, at the two ends and nowhere else. */
  lemma {:induction false} TrimExact(s: string) returns (from: nat, to: nat)
    ensures from <= to <= |s| && Trim(s) == s[from..to] && NoEdgeWhitespace(Trim(s))
    ensures forall i :: 0 <= i < from || to <= i < |s| ==> IsWhitespace(s[i])
  {
    if s == "" {
      from, to := 0, 0;
    } else if IsWhitespace(s[0]) {
      var a, b := TrimExact(s[1..]);
      from, to := a + 1, b + 1;
      assert s[1..][a..b] == s[from..to];
      forall i | 0 <= i < from || to <= i < |s|
        ensures IsWhitespace(s[i])
      {
        if 0 < i {
          assert s[i] == s[1..][i - 1];
        }
      }
    } else if IsWhitespace(s[|s| - 1]) {
      from, to := TrimExact(s[..|s| - 1]);
      assert s[..|s| - 1][from..to] == s[from..to];
      forall i | 0 <= i < from || to <= i < |s|
        ensures IsWhitespace(s[i])
      {
        if i < |s| - 1 {
          assert s[i] == s[..|s| - 1][i];
        }
      }
    } else {
      from, to := 0, |s|;
    }
  }

  /** Text without whitespace at its ends is what trimming leaves alone. */
  lemma TrimFixed(s: string)
    ensures Trim(s) == s <==> NoEdgeWhitespace(s)
  {
    var from, to := TrimExact(s);
    if NoEdgeWhitespace(s) && s != "" {
      assert from == 0 && to == |s|;
    }
  }

  /** The payload of a constructor whose parenthesis has been consumed. */
  function DebugPayload(rest: string): Option<string> {
    if rest != "" && rest[0] == '"' then
      var end :- LiteralEnd(rest[1..], 0, false);
      Some(Unescape(rest[1..][..end]))
    else
      var end :- NestingEnd(rest, 0, OPENED, PARENS, Respected);
      Some(rest[..end])
  }

  function Payload(spelling: Spelling, rest: string): Option<string> {
    match spelling
    case Debug => DebugPayload(rest)
    case Display => Some(Trim(rest))
  }

  method ReadPayload(spelling: Spelling, rest: string) returns (r: Option<string>)
    ensures r == Payload(spelling, rest)
  {
    if spelling.Display? {
      return Some(Trim(rest));
    }
    if rest != "" && rest[0] == '"' {
      var literal := rest[1..];
      var end := StringLiteralEnd(literal);
      if end.None? {
        return None;
      }
      var message := UnescapeText(literal[..end.value]);
      return Some(message);
    }
    var end := EndOfNesting(rest, PARENS, Respected);
    r := if end.None? then None else Some(rest[..end.value]);
  }

  /** The outermost name of a text and where it starts. */
  ghost function Outermost(table: seq<Marker>, text: string): Option<(Name, nat)> {
    if exists name: Name, at: nat :: IsOutermost(table, text, name, at) then
      var name: Name, at: nat :| IsOutermost(table, text, name, at);
      Some((name, at))
    else
      None
  }

  lemma NoneOutermost(table: seq<Marker>, text: string)
    requires MarkerFree(table, text)
    ensures Outermost(table, text) == None
  {
    forall name: Name, at: nat
      ensures !IsOutermost(table, text, name, at)
    {
      assert name.marker in table ==> !Marks(text, name.marker.Needle(name.spelling), at);
    }
  }

  lemma OutermostIs(table: seq<Marker>, text: string, name: Name, at: nat)
    requires Sound(table) && IsOutermost(table, text, name, at)
    ensures Outermost(table, text) == Some((name, at))
  {
    var spec := Outermost(table, text);
    OutermostUnique(table, text, name, at, spec.value.0, spec.value.1);
  }

  /** The message after a name, unless it is empty. */
  function Found(text: string, name: Name, at: nat): Option<Recovered> {
    if |text| < at + |name.Text()| then None else
    var message :- Payload(name.spelling, text[at + |name.Text()|..]);
    if message == "" then None else Some(Recovered(name.marker.variant, message))
  }

  /** What peeling one layer yields: the payload of the outermost name. */
  ghost function Peeled(table: seq<Marker>, text: string): Option<Recovered> {
    var (name, at) :- Outermost(table, text);
    Found(text, name, at)
  }

  /** What the search and the payload it points at come to. */
  lemma PeeledIs(table: seq<Marker>, text: string, outermost: Option<(Name, nat)>, r: Option<Recovered>)
    requires Sound(table) && IsSearched(table, text, outermost)
    requires outermost.None? ==> r == None
    requires outermost.Some? ==> r == Found(text, outermost.value.0, outermost.value.1 - |outermost.value.0.Text()|)
    ensures r == Peeled(table, text)
  {
    if outermost.None? {
      NoneOutermost(table, text);
    } else {
      OutermostIs(table, text, outermost.value.0, outermost.value.1 - |outermost.value.0.Text()|);
    }
  }

  method ReadFound(text: string, name: Name, after: nat) returns (r: Option<Recovered>)
    requires |name.Text()| <= after <= |text|
    ensures r == Found(text, name, after - |name.Text()|)
  {
    var message := ReadPayload(name.spelling, text[after..]);
    if message.None? || message.value == "" {
      return None;
    }
    r := Some(Recovered(name.marker.variant, message.value));
  }

  method Peel(table: seq<Marker>, text: string) returns (r: Option<Recovered>)
    requires Sound(table)
    ensures r == Peeled(table, text)
  {
    var outermost := OutermostMarker(table, text);
    r := None;
    if outermost.Some? {
      r := ReadFound(text, outermost.value.0, outermost.value.1);
    }
    PeeledIs(table, text, outermost, r);
  }

  // ----- all the layers

  /** Peel up to `layers` times and keep what the last successful peel found. */
  ghost function Repeat(peel: string -> Option<Recovered>, text: string, layers: nat): Option<Recovered>
    decreases layers
  {
    if layers == 0 then None else
    var peeled :- peel(text);
    var deeper := Repeat(peel, peeled.message, layers - 1);
    if deeper.None? then Some(peeled) else deeper
  }

  ghost function Peeler(table: seq<Marker>): string -> Option<Recovered> {
    text => Peeled(table, text)
  }

  ghost function Recover(table: seq<Marker>, text: string, layers: nat): Option<Recovered> {
    Repeat(Peeler(table), text, layers)
  }

  /** With `left` peels to go from `current`, what was recovered stands unless they find more. */
  ghost predicate OnTheWay(peel: string -> Option<Recovered>, text: string, limit: nat,
                           current: string, left: nat, recovered: Option<Recovered>) {
    var deeper := Repeat(peel, current, left);
    Repeat(peel, text, limit) == if deeper.None? then recovered else deeper
  }

  lemma PeelOnce(peel: string -> Option<Recovered>, text: string, limit: nat, current: string, left: nat,
                 recovered: Option<Recovered>, peeled: Option<Recovered>)
    requires left > 0 && OnTheWay(peel, text, limit, current, left, recovered) && peeled == peel(current)
    ensures peeled.None? ==> Repeat(peel, text, limit) == recovered
    ensures peeled.Some? ==> OnTheWay(peel, text, limit, peeled.value.message, left - 1, peeled)
  {
  }

  ghost predicate PeelsAlike(table: seq<Marker>, peel: string -> Option<Recovered>, text: string) {
    peel(text) == Peeled(table, text)
  }

  /** `peel` is the peeling of a table, kept as a name so that proofs about layers need not look inside. */
  ghost predicate IsPeeler(table: seq<Marker>, peel: string -> Option<Recovered>) {
    forall text: string {:trigger PeelsAlike(table, peel, text)} :: PeelsAlike(table, peel, text)
  }

  method PeelWith(table: seq<Marker>, text: string, ghost peel: string -> Option<Recovered>)
    returns (r: Option<Recovered>)
    requires Sound(table) && IsPeeler(table, peel)
    ensures r == peel(text)
  {
    r := Peel(table, text);
    assert PeelsAlike(table, peel, text);
  }

  method RecoverLayers(table: seq<Marker>, text: string, limit: nat, ghost peel: string -> Option<Recovered>)
    returns (recovered: Option<Recovered>)
    requires Sound(table) && IsPeeler(table, peel)
    ensures recovered == Repeat(peel, text, limit)
  {
    var current := text;
    recovered := None;
    for layer := 0 to limit
      invariant OnTheWay(peel, text, limit, current, limit - layer, recovered)
    {
      var peeled := PeelWith(table, current, peel);
      PeelOnce(peel, text, limit, current, limit - layer, recovered, peeled);
      if peeled.None? {
        return;
      }
      current := peeled.value.message;
      recovered := peeled;
    }
  }

  method RecoverTransportedError(text: string) returns (recovered: Option<Recovered>)
    ensures recovered == Recover(MARKERS, text, MAX_TRANSPORT_LAYERS)
  {
    MarkersSound();
    PeelerPeels(MARKERS);
    recovered := RecoverLayers(MARKERS, text, MAX_TRANSPORT_LAYERS, Peeler(MARKERS));
  }

  lemma PeelerPeels(table: seq<Marker>)
    ensures IsPeeler(table, Peeler(table))
  {
  }

  // ----- the renderer

  /** One layer of rendering: where it was put, whose it is and what follows it. */
  datatype Layer =
    | Quoted(prefix: string, marker: Marker, suffix: string)
    | Bare(prefix: string, marker: Marker, suffix: string)
    | Shown(prefix: string, marker: Marker)
  {
    function NameUsed(): Name {
      Name(marker, if Shown? then Display else Debug)
    }
  }

  /** The text after the name: a quoted and escaped message, a bare payload, or plain prose. */
  function Tail(layer: Layer, inner: string): string {
    match layer
    case Quoted(_, _, suffix) => "\"" + Escape(inner) + "\"" + suffix
    case Bare(_, _, suffix) => inner + ")" + suffix
    case Shown(_, _) => inner
  }

  function RenderLayer(layer: Layer, inner: string): string {
    layer.prefix + (layer.NameUsed().Text() + Tail(layer, inner))
  }

  /** Layers outermost first. */
  function Render(layers: seq<Layer>, message: string): string {
    if layers == [] then message else RenderLayer(layers[0], Render(layers[1..], message))
  }

  /** The wrapper text names nothing itself and puts the name where a renderer would. */
  ghost predicate Placed(table: seq<Marker>, layer: Layer) {
    layer.marker in table && MarkerFree(table, layer.prefix) && EndsStructurally(layer.prefix)
  }

  /** What a layer of each kind can carry without losing it. */
  predicate Carries(layer: Layer, inner: string) {
    && inner != ""
    && match layer
       case Quoted(_, _, _) => Restorable(inner)
       case Bare(_, _, _) => inner[0] != '"' && Balanced(inner, PARENS, Respected)
       case Shown(_, _) => NoEdgeWhitespace(inner)
  }

  ghost predicate Renderable(table: seq<Marker>, layers: seq<Layer>, message: string) {
    if layers == [] then MarkerFree(table, message)
    else
      && Placed(table, layers[0])
      && Carries(layers[0], Render(layers[1..], message))
      && Renderable(table, layers[1..], message)
  }

  // ----- peeling undoes rendering

  lemma OccursInConcat(a: string, b: string, c: string)
    ensures Occurs(a + (b + c), b, |a|)
  {
  }

  lemma NothingMarksThePrefix(table: seq<Marker>, prefix: string, rest: string, m: Marker, s: Spelling, i: nat)
    requires Sound(table) && m in table && MarkerFree(table, prefix) && StructuralAfter(prefix)
    requires i < |prefix|
    ensures !Marks(prefix + rest, m.Needle(s), i)
  {
    var text, n := prefix + rest, m.Needle(s);
    if Marks(text, n, i) {
      assert text[..i] == prefix[..i];
      if i + |n| <= |prefix| {
        assert Marks(prefix, n, i);
      } else {
        assert text[..|prefix|] == prefix;
        InsideIsNotStructural(text, n, i, |prefix|);
      }
    }
  }

  /** The name a layer was rendered with is the outermost name of the rendering. */
  lemma LayerNameIsOutermost(table: seq<Marker>, layer: Layer, inner: string)
    requires Sound(table) && Placed(table, layer)
    ensures IsOutermost(table, RenderLayer(layer, inner), layer.NameUsed(), |layer.prefix|)
  {
    StructuralIsEnding(layer.prefix);
    var name, tail := layer.NameUsed(), Tail(layer, inner);
    var text, rest := RenderLayer(layer, inner), name.Text() + tail;
    OccursInConcat(layer.prefix, name.Text(), tail);
    assert text[..|layer.prefix|] == layer.prefix;
    forall m <- table, s: Spelling, i: nat | i < |layer.prefix|
      ensures !Marks(text, m.Needle(s), i)
    {
      NothingMarksThePrefix(table, layer.prefix, rest, m, s, i);
    }
  }

  lemma {:induction false} LiteralOfEscape(inner: string, suffix: string, literal: string)
    requires literal == Escape(inner) + ("\"" + suffix)
    ensures LiteralEnd(literal, 0, false) == Some(|Escape(inner)|)
    ensures literal[..|Escape(inner)|] == Escape(inner)
  {
    var e := Escape(inner);
    assert Occurs(literal, e, 0);
    LiteralSkipsEscape(literal, inner, 0);
    assert literal[|e|] == '"';
  }

  lemma QuotedPayload(inner: string, suffix: string)
    requires Restorable(inner)
    ensures DebugPayload("\"" + Escape(inner) + "\"" + suffix) == Some(inner)
  {
    var rest := "\"" + Escape(inner) + "\"" + suffix;
    var literal := Escape(inner) + ("\"" + suffix);
    assert rest[1..] == literal;
    LiteralOfEscape(inner, suffix, literal);
    EscapeRoundTrip(inner);
  }

  lemma BarePayload(inner: string, suffix: string)
    requires inner != "" && inner[0] != '"' && Balanced(inner, PARENS, Respected)
    ensures DebugPayload(inner + ")" + suffix) == Some(inner)
  {
    var rest := inner + ")" + suffix;
    NestingEndAfter(rest, inner, 0, OPENED, PARENS, Respected);
    assert rest[|inner|] == ')';
    assert rest[..|inner|] == inner;
  }

  lemma TailPayload(layer: Layer, inner: string)
    requires Carries(layer, inner)
    ensures Payload(layer.NameUsed().spelling, Tail(layer, inner)) == Some(inner)
  {
    match layer
    case Quoted(_, _, suffix) => QuotedPayload(inner, suffix);
    case Bare(_, _, suffix) => BarePayload(inner, suffix);
    case Shown(_, _) => TrimFixed(inner);
  }

  lemma PeeledAt(table: seq<Marker>, text: string, name: Name, at: nat, tail: string, message: string)
    requires Sound(table) && IsOutermost(table, text, name, at)
    requires text[at + |name.Text()|..] == tail && Payload(name.spelling, tail) == Some(message) && message != ""
    ensures Peeled(table, text) == Some(Recovered(name.marker.variant, message))
  {
    OutermostIs(table, text, name, at);
  }

  lemma TailOfLayer(layer: Layer, inner: string)
    ensures RenderLayer(layer, inner)[|layer.prefix| + |layer.NameUsed().Text()|..] == Tail(layer, inner)
  {
    var name, tail := layer.NameUsed().Text(), Tail(layer, inner);
    assert (layer.prefix + (name + tail))[|layer.prefix| + |name|..] == tail;
  }

  /** One peel undoes one layer of rendering, of any of the three kinds. */
  lemma PeelUndoesLayer(table: seq<Marker>, layer: Layer, inner: string)
    requires Sound(table) && Placed(table, layer) && Carries(layer, inner)
    ensures Peeled(table, RenderLayer(layer, inner)) == Some(Recovered(layer.marker.variant, inner))
  {
    LayerNameIsOutermost(table, layer, inner);
    TailOfLayer(layer, inner);
    TailPayload(layer, inner);
    PeeledAt(table, RenderLayer(layer, inner), layer.NameUsed(), |layer.prefix|, Tail(layer, inner), inner);
  }

  /** Texts that peel one into the next, each under its variant, and the last into nothing. */
  ghost predicate Chain(peel: string -> Option<Recovered>, texts: seq<string>, variants: seq<Variant>) {
    && |texts| == |variants| + 1
    && (forall i :: 0 <= i < |variants| ==> peel(texts[i]) == Some(Recovered(variants[i], texts[i + 1])))
    && peel(texts[|variants|]).None?
  }

  lemma {:induction false} RepeatChain(
    peel: string -> Option<Recovered>, texts: seq<string>, variants: seq<Variant>, i: nat, n: nat)
    requires Chain(peel, texts, variants) && i <= |variants|
    ensures var k := if i + n < |variants| then i + n else |variants|;
            Repeat(peel, texts[i], n) == if k == i then None else Some(Recovered(variants[k - 1], texts[k]))
    decreases n
  {
    if n != 0 && i < |variants| {
      RepeatChain(peel, texts, variants, i + 1, n - 1);
    }
  }

  lemma {:induction false} RenderableFrom(table: seq<Marker>, layers: seq<Layer>, message: string, i: nat)
    requires Renderable(table, layers, message) && i <= |layers|
    ensures Renderable(table, layers[i..], message)
    ensures i < |layers| ==>
              && Placed(table, layers[i]) && Carries(layers[i], Render(layers[i + 1..], message))
              && Render(layers[i..], message) == RenderLayer(layers[i], Render(layers[i + 1..], message))
  {
    if i == 0 {
      assert layers[0..] == layers;
    } else {
      RenderableFrom(table, layers[1..], message, i - 1);
      assert layers[1..][i - 1..] == layers[i..];
      if i < |layers| {
        assert layers[1..][i..] == layers[i + 1..];
      }
    }
  }

  /** The texts a message goes through as its layers come off. */
  ghost function Stages(layers: seq<Layer>, message: string): (texts: seq<string>)
    ensures |texts| == |layers| + 1
    ensures forall i :: 0 <= i <= |layers| ==> texts[i] == Render(layers[i..], message)
  {
    seq(|layers| + 1, i requires 0 <= i <= |layers| => Render(layers[i..], message))
  }

  ghost function VariantsOf(layers: seq<Layer>): (vs: seq<Variant>)
    ensures |vs| == |layers|
    ensures forall i :: 0 <= i < |layers| ==> vs[i] == layers[i].marker.variant
  {
    seq(|layers|, i requires 0 <= i < |layers| => layers[i].marker.variant)
  }

  lemma {:induction false} StagesChain(table: seq<Marker>, layers: seq<Layer>, message: string)
    requires Sound(table) && Renderable(table, layers, message)
    ensures Chain(Peeler(table), Stages(layers, message), VariantsOf(layers))
  {
    forall i | 0 <= i < |layers|
      ensures Peeled(table, Render(layers[i..], message))
              == Some(Recovered(layers[i].marker.variant, Render(layers[i + 1..], message)))
    {
      RenderableFrom(table, layers, message, i);
      PeelUndoesLayer(table, layers[i], Render(layers[i + 1..], message));
    }
    RenderableFrom(table, layers, message, |layers|);
  }

  /**
   Recovering is the inverse of rendering as deep as the layers go: with `n` peels the first
   `n` layers come off, and with enough of them the message and its innermost variant remain.
   */
  lemma {:induction false} RecoverRendered(table: seq<Marker>, layers: seq<Layer>, message: string, n: nat)
    requires Sound(table) && Renderable(table, layers, message) && layers != [] && 1 <= n
    ensures var k := if n < |layers| then n else |layers|;
            Recover(table, Render(layers, message), n)
            == Some(Recovered(layers[k - 1].marker.variant, Render(layers[k..], message)))
  {
    StagesChain(table, layers, message);
    RepeatChain(Peeler(table), Stages(layers, message), VariantsOf(layers), 0, n);
    assert layers[0..] == layers;
  }

  lemma {:induction false} RenderGrows(layers: seq<Layer>, message: string)
    requires forall l <- layers :: |l.NameUsed().Text()| > 0
    ensures |message| + |layers| <= |Render(layers, message)|
  {
    if layers == [] {
    } else {
      RenderGrows(layers[1..], message);
      LayerGrows(layers[0], Render(layers[1..], message));
    }
  }

  lemma LayerGrows(layer: Layer, inner: string)
    requires |layer.NameUsed().Text()| > 0
    ensures |inner| < |RenderLayer(layer, inner)|
  {
    EscapeGrows(inner);
  }

  lemma {:induction false} EscapeGrows(s: string)
    ensures |s| <= |Escape(s)|
  {
    if s == "" {
    } else {
      EscapeGrows(s[1..]);
    }
  }

  lemma {:induction false} LayersNamed(table: seq<Marker>, layers: seq<Layer>, message: string)
    requires Sound(table) && Renderable(table, layers, message)
    ensures forall l <- layers :: |l.NameUsed().Text()| > 0
  {
    if layers == [] {
    } else {
      LayersNamed(table, layers[1..], message);
      assert forall l <- layers :: l == layers[0] || l in layers[1..];
    }
  }

  /**
   The round trip through the real table: a message no name marks, wrapped in one or more
   well placed layers, comes back exactly, with its innermost variant, if and only if there
   are at most eight of them.
   */
  lemma TransportRoundTrip(layers: seq<Layer>, message: string)
    requires Renderable(MARKERS, layers, message) && layers != []
    ensures Recover(MARKERS, Render(layers, message), MAX_TRANSPORT_LAYERS)
            == Some(Recovered(layers[|layers| - 1].marker.variant, message))
            <==> |layers| <= 8
  {
    MarkersSound();
    RecoverRendered(MARKERS, layers, message, MAX_TRANSPORT_LAYERS);
    DepthDecides(MARKERS, layers, message, MAX_TRANSPORT_LAYERS,
                 Recover(MARKERS, Render(layers, message), MAX_TRANSPORT_LAYERS));
  }

  /** What is left after as many peels as allowed is the message exactly when the layers are no more. */
  lemma DepthDecides(table: seq<Marker>, layers: seq<Layer>, message: string, n: nat, r: Option<Recovered>)
    requires Sound(table) && Renderable(table, layers, message) && layers != [] && 1 <= n
    requires var k := if n < |layers| then n else |layers|;
             r == Some(Recovered(layers[k - 1].marker.variant, Render(layers[k..], message)))
    ensures r == Some(Recovered(layers[|layers| - 1].marker.variant, message)) <==> |layers| <= n
  {
    if |layers| <= n {
      assert layers[|layers|..] == [];
    } else {
      StillWrapped(table, layers, message, n);
    }
  }

  /** What is left after too few peels is longer than the message. */
  lemma StillWrapped(table: seq<Marker>, layers: seq<Layer>, message: string, n: nat)
    requires Sound(table) && Renderable(table, layers, message) && n < |layers|
    ensures |message| < |Render(layers[n..], message)|
  {
    RenderableFrom(table, layers, message, n);
    LayersNamed(table, layers[n..], message);
    RenderGrows(layers[n..], message);
  }

  /** Text that names no variant recovers nothing. */
  lemma NothingToRecover(text: string, n: nat)
    requires MarkerFree(MARKERS, text)
    ensures Recover(MARKERS, text, n).None?
  {
  }
}
