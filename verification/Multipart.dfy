/** The multipart/form-data format: what is emitted, and a reference parser following
    section 5.1.1 of RFC 2046.  Texts are the bytes of their UTF-8 encodings. */
module Multipart {
  import opened Basics

  type Bytes = seq<byte>

  const CRLF: Bytes := [13, 10]
  const DASHES: Bytes := [45, 45]
  const COLON: Bytes := [58, 32]

  // ----- What is emitted -----

  datatype BoundaryType = Initial | Encapsulated | Final

  function BoundaryData(kind: BoundaryType, boundary: Bytes): Bytes {
    match kind
    case Initial => DASHES + boundary + CRLF
    case Encapsulated => CRLF + DASHES + boundary + CRLF
    case Final => CRLF + DASHES + boundary + DASHES + CRLF
  }

  datatype Header = Header(name: Bytes, value: Bytes)

  function HeaderLine(h: Header): Bytes { h.name + COLON + h.value }

  /** encodeHeaders */
  function EncodeHeaders(headers: seq<Header>): Bytes {
    if headers == [] then CRLF else HeaderLine(headers[0]) + CRLF + EncodeHeaders(headers[1..])
  }

  /** A body part at the time of encoding. */
  datatype Part = Part(headers: seq<Header>, body: Bytes, hasInitialBoundary: bool, hasFinalBoundary: bool)

  /** The headers-plus-body text of a part. */
  function Text(p: Part): Bytes { EncodeHeaders(p.headers) + p.body }

  function EncodePart(boundary: Bytes, p: Part): Bytes {
    BoundaryData(if p.hasInitialBoundary then BoundaryType.Initial else Encapsulated, boundary)
    + EncodeHeaders(p.headers)
    + p.body
    + (if p.hasFinalBoundary then BoundaryData(Final, boundary) else [])
  }

  function EncodeParts(boundary: Bytes, ps: seq<Part>): Bytes {
    if ps == [] then [] else EncodePart(boundary, ps[0]) + EncodeParts(boundary, ps[1..])
  }

  /** The flags that encode() and writeEncodedData(to:) set. */
  function MarkEnds(ps: seq<Part>): (r: seq<Part>)
    ensures |r| == |ps|
    ensures forall i :: 0 <= i < |ps| ==>
      r[i] == Part(ps[i].headers, ps[i].body,
                   ps[i].hasInitialBoundary || i == 0, ps[i].hasFinalBoundary || i == |ps| - 1)
  {
    if ps == [] then []
    else
      var first := ps[0 := ps[0].(hasInitialBoundary := true)];
      first[|ps| - 1 := first[|ps| - 1].(hasFinalBoundary := true)]
  }

  predicate Unmarked(ps: seq<Part>) {
    forall p <- ps :: !p.hasInitialBoundary && !p.hasFinalBoundary
  }

  lemma {:induction false} EncodeSnoc(boundary: Bytes, ps: seq<Part>, p: Part)
    ensures EncodeParts(boundary, ps + [p]) == EncodeParts(boundary, ps) + EncodePart(boundary, p)
  {
    hide EncodePart;
    if ps == [] {
      assert ps + [p] == [p] && EncodeParts(boundary, [p][1..]) == [];
    } else {
      assert (ps + [p])[1..] == ps[1..] + [p];
      EncodeSnoc(boundary, ps[1..], p);
    }
  }

  // ----- The reference parser -----

  /** The delimiter line of RFC 2046, without what may follow on the line. */
  function Delimiter(boundary: Bytes): Bytes { CRLF + DASHES + boundary }

  predicate Occurs(s: Bytes, p: Bytes, j: nat) {
    j + |p| <= |s| && s[j..j + |p|] == p
  }

  /** The first position at which p occurs in s. */
  function Find(s: Bytes, p: Bytes): (r: Option<nat>)
    requires p != []
    ensures r.Some? ==> Occurs(s, p, r.value)
    ensures forall j: nat :: r.None? || j < r.value ==> !Occurs(s, p, j)
  {
    if Occurs(s, p, 0) then Some(0)
    else if s == [] then None
    else
      var r := Find(s[1..], p);
      OccursTail(s, p);
      if r.None? then None else Some(r.value + 1)
  }

  lemma {:induction false} OccursTail(s: Bytes, p: Bytes)
    requires s != []
    ensures forall j: nat :: j > 0 ==> Occurs(s, p, j) == Occurs(s[1..], p, j - 1)
  {
    forall j: nat | j > 0 ensures Occurs(s, p, j) == Occurs(s[1..], p, j - 1) {
      OccursLater(s, p, j);
    }
  }

  lemma {:induction false} OccursLater(s: Bytes, p: Bytes, j: nat)
    requires s != [] && j > 0
    ensures Occurs(s, p, j) == Occurs(s[1..], p, j - 1)
  {
    if j + |p| <= |s| {
      var a, b := s[j..j + |p|], s[1..][j - 1..j - 1 + |p|];
      assert forall k :: 0 <= k < |p| ==> a[k] == b[k];
      assert a == b;
    }
  }

  /** Transport padding: spaces and tabs after a boundary. */
  function SkipPadding(s: Bytes): (r: Bytes)
    ensures |r| <= |s|
  {
    if s != [] && (s[0] == 32 || s[0] == 9) then SkipPadding(s[1..]) else s
  }

  /** The texts of the parts, from just after a delimiter to the closing one. */
  function ParseBodies(s: Bytes, boundary: Bytes): Option<seq<Bytes>>
    decreases |s|, 1
  {
    if DASHES <= s then Some([])
    else
      var t := SkipPadding(s);
      if !(CRLF <= t) then None else BodiesFrom(t[2..], boundary)
  }

  /** The same, from the beginning of a text. */
  function BodiesFrom(s: Bytes, boundary: Bytes): Option<seq<Bytes>>
    decreases |s|, 0
  {
    var at := Find(s, Delimiter(boundary));
    if at.None? then None
    else
      var rest := ParseBodies(s[at.value + |Delimiter(boundary)|..], boundary);
      if rest.None? then None else Some([s[..at.value]] + rest.value)
  }

  /** A whole body: a preamble up to the first delimiter, which may also begin the body, the
      parts, and after the closing delimiter an epilogue. */
  function ParseTexts(s: Bytes, boundary: Bytes): Option<seq<Bytes>> {
    var at := Find(CRLF + s, Delimiter(boundary));
    if at.None? then None else ParseBodies((CRLF + s)[at.value + |Delimiter(boundary)|..], boundary)
  }

  /** What a receiver reads in a part. */
  datatype Received = Received(headers: seq<Header>, body: Bytes)

  /** A header line: a name up to the first colon, and a value after at most one space. */
  function ParseHeader(line: Bytes): Option<Header> {
    var at := Find(line, [58]);
    if at.None? then None
    else
      var rest := line[at.value + 1..];
      Some(Header(line[..at.value], if rest != [] && rest[0] == 32 then rest[1..] else rest))
  }

  /** Header lines up to the first empty line, and the rest. */
  function ParsePart(s: Bytes): Option<Received> {
    var at := Find(s, CRLF);
    if at.None? then None
    else if at.value == 0 then Some(Received([], s[2..]))
    else
      var first, rest := ParseHeader(s[..at.value]), ParsePart(s[at.value + 2..]);
      if first.None? || rest.None? then None
      else Some(Received([first.value] + rest.value.headers, rest.value.body))
  }

  function ParseParts(texts: seq<Bytes>): Option<seq<Received>> {
    if texts == [] then Some([])
    else
      var first, rest := ParsePart(texts[0]), ParseParts(texts[1..]);
      if first.None? || rest.None? then None else Some([first.value] + rest.value)
  }

  function Parse(s: Bytes, boundary: Bytes): Option<seq<Received>> {
    var texts := ParseTexts(s, boundary);
    if texts.None? then None else ParseParts(texts.value)
  }

  // ----- Searching -----

  lemma {:induction false} FindAt(s: Bytes, p: Bytes, i: nat)
    requires p != [] && Occurs(s, p, i)
    requires forall j: nat :: j < i ==> !Occurs(s, p, j)
    ensures Find(s, p) == Some(i)
  {
    hide Occurs;
  }

  /** A pattern whose first byte does not come back inside it cannot straddle the end of a
      text that is followed by the pattern itself. */
  lemma {:induction false} FindFollowing(text: Bytes, p: Bytes, rest: Bytes)
    requires p != [] && (forall k :: 0 < k < |p| ==> p[k] != p[0])
    ensures Find(text + p + rest, p) == if Find(text, p).Some? then Find(text, p) else Some(|text|)
  {
    var s := text + p + rest;
    var at := Find(text, p);
    var i := if at.Some? then at.value else |text|;
    OccursFollowing(text, p, rest, i);
    forall j: nat | j < i ensures !Occurs(s, p, j) {
      OccursFollowing(text, p, rest, j);
    }
    hide Occurs;
    FindAt(s, p, i);
  }

  lemma {:induction false} OccursFollowing(text: Bytes, p: Bytes, rest: Bytes, j: nat)
    requires p != [] && (forall k :: 0 < k < |p| ==> p[k] != p[0]) && j <= |text|
    ensures Occurs(text + p + rest, p, j) <==> j == |text| || Occurs(text, p, j)
  {
    var s := text + p + rest;
    if j == |text| {
      assert s[j..j + |p|] == p;
    } else if j + |p| <= |text| {
      assert s[j..j + |p|] == text[j..j + |p|];
    } else if j + |p| <= |s| {
      assert s[j..j + |p|][|text| - j] == p[0] != p[|text| - j];
    }
  }

  lemma {:induction false} DelimiterSound(boundary: Bytes)
    requires 13 !in boundary
    ensures Delimiter(boundary) != [] && Delimiter(boundary)[0] == 13
    ensures forall k :: 0 < k < |Delimiter(boundary)| ==> Delimiter(boundary)[k] != 13
  {
    var d := Delimiter(boundary);
    forall k | 0 < k < |d| ensures d[k] != 13 {
      if k >= 4 { assert d[k] == boundary[k - 4]; }
    }
  }

  lemma {:induction false} ConsEqual<T>(first: Option<T>, rest: Option<seq<T>>, all: seq<T>)
    requires all != []
    ensures (first.Some? && rest.Some? && [first.value] + rest.value == all)
            <==> first == Some(all[0]) && rest == Some(all[1..])
  {
    if first.Some? && rest.Some? {
      assert all == [all[0]] + all[1..];
      assert ([first.value] + rest.value)[1..] == rest.value;
      assert ([first.value] + rest.value)[0] == first.value;
    }
  }

  // ----- Unique decodability -----

  /** What follows a delimiter when the given texts are still to come. */
  function After(boundary: Bytes, texts: seq<Bytes>): Bytes {
    if texts == [] then DASHES + CRLF
    else CRLF + texts[0] + Delimiter(boundary) + After(boundary, texts[1..])
  }

  /** No part's text holds the delimiter. */
  predicate Separable(boundary: Bytes, texts: seq<Bytes>) {
    forall t <- texts :: Find(t, Delimiter(boundary)).None?
  }

  lemma {:induction false} ParseFirst(boundary: Bytes, t: Bytes, rest: Bytes)
    requires 13 !in boundary
    ensures var d := Delimiter(boundary);
            var parsed, later := ParseBodies(CRLF + t + d + rest, boundary), ParseBodies(rest, boundary);
            if Find(t, d).None?
            then parsed == if later.None? then None else Some([t] + later.value)
            else parsed.Some? ==> parsed.value != [] && parsed.value[0] == t[..Find(t, d).value]
  {
    hide *;
    var d := Delimiter(boundary);
    var u := t + d + rest;
    assert CRLF + t + d + rest == CRLF + u;
    LineEnds(u, boundary);
    FromIs(u, boundary);
    DelimiterSound(boundary);
    FindFollowing(t, d, rest);
    if Find(t, d).None? {
      assert u[..|t|] == t && u[|t| + |d|..] == rest;
    } else {
      FindInside(t, d);
      assert u[..Find(t, d).value] == t[..Find(t, d).value];
    }
  }

  lemma {:induction false} FromIs(s: Bytes, boundary: Bytes)
    ensures var d, at := Delimiter(boundary), Find(s, Delimiter(boundary));
            BodiesFrom(s, boundary) ==
            if at.None? then None
            else
              var rest := ParseBodies(s[at.value + |d|..], boundary);
              if rest.None? then None else Some([s[..at.value]] + rest.value)
  {
    hide ParseBodies, Find, Delimiter;
  }

  lemma {:induction false} FindInside(s: Bytes, p: Bytes)
    requires p != [] && Find(s, p).Some?
    ensures Find(s, p).value + |p| <= |s|
  {
    hide Find;
  }

  lemma {:induction false} LineEnds(u: Bytes, boundary: Bytes)
    ensures ParseBodies(CRLF + u, boundary) == BodiesFrom(u, boundary)
  {
    var s := CRLF + u;
    assert s[0] == 13 && s[1] == 10 && s[2..] == u;
    assert SkipPadding(s) == s && CRLF <= s && !(DASHES <= s);
    hide BodiesFrom, SkipPadding;
  }

  /** The parser gives the texts back exactly when none of them holds the delimiter. */
  lemma {:induction false} TextsRecoveredIff(boundary: Bytes, texts: seq<Bytes>)
    requires 13 !in boundary
    ensures ParseBodies(After(boundary, texts), boundary) == Some(texts) <==> Separable(boundary, texts)
  {
    if texts != [] {
      ParseFirst(boundary, texts[0], After(boundary, texts[1..]));
      TextsRecoveredIff(boundary, texts[1..]);
      FirstText(boundary, texts);
      ConsEqual(Some(texts[0]), ParseBodies(After(boundary, texts[1..]), boundary), texts);
      hide Find, Delimiter, SkipPadding, ParseBodies, Separable;
    }
  }

  lemma {:induction false} FirstText(boundary: Bytes, texts: seq<Bytes>)
    requires texts != []
    ensures Separable(boundary, texts) <==>
            Find(texts[0], Delimiter(boundary)).None? && Separable(boundary, texts[1..])
  {
    hide Find, Delimiter;
    assert texts == [texts[0]] + texts[1..];
  }

  // ----- The emitted bytes, seen from the parser -----

  function Texts(ps: seq<Part>): seq<Bytes> {
    if ps == [] then [] else [Text(ps[0])] + Texts(ps[1..])
  }

  /** The three boundary texts are one delimiter line, in bytes CR LF - - and the boundary. */
  lemma {:induction false} Boundaries(boundary: Bytes)
    ensures Delimiter(boundary) == [13, 10, 45, 45] + boundary && CRLF == [13, 10] && DASHES == [45, 45]
    ensures CRLF + BoundaryData(BoundaryType.Initial, boundary) == Delimiter(boundary) + CRLF
    ensures BoundaryData(Encapsulated, boundary) == Delimiter(boundary) + CRLF
    ensures BoundaryData(Final, boundary) == Delimiter(boundary) + DASHES + CRLF
  {
  }

  lemma {:induction false} OnePart(boundary: Bytes, p: Part)
    requires !p.hasInitialBoundary
    ensures EncodePart(boundary, p) ==
            Delimiter(boundary) + CRLF + Text(p)
            + (if p.hasFinalBoundary then Delimiter(boundary) + (DASHES + CRLF) else [])
    ensures CRLF + EncodePart(boundary, p.(hasInitialBoundary := true)) == EncodePart(boundary, p)
  {
    Boundaries(boundary);
    hide Delimiter, BoundaryData, EncodeHeaders;
  }

  /** No initial boundary, and a final one exactly at the end. */
  predicate Tail(ps: seq<Part>) {
    forall i :: 0 <= i < |ps| ==> !ps[i].hasInitialBoundary && ps[i].hasFinalBoundary == (i == |ps| - 1)
  }

  lemma {:induction false} TailEncoding(boundary: Bytes, ps: seq<Part>)
    requires ps != [] && Tail(ps)
    ensures EncodeParts(boundary, ps) == Delimiter(boundary) + After(boundary, Texts(ps))
  {
    var d, t, rest := Delimiter(boundary), Text(ps[0]), ps[1..];
    OnePart(boundary, ps[0]);
    TailUnfold(boundary, ps);
    Regroup(d, CRLF, t, d, After(boundary, Texts(rest)));
    if rest == [] {
      hide *;
    } else {
      TailEncoding(boundary, rest);
      hide *;
    }
  }

  lemma {:induction false} TailUnfold(boundary: Bytes, ps: seq<Part>)
    requires ps != []
    ensures EncodeParts(boundary, ps) == EncodePart(boundary, ps[0]) + EncodeParts(boundary, ps[1..])
    ensures EncodeParts(boundary, []) == [] && After(boundary, Texts([])) == DASHES + CRLF
    ensures After(boundary, Texts(ps)) ==
            CRLF + Text(ps[0]) + Delimiter(boundary) + After(boundary, Texts(ps[1..]))
  {
    hide Delimiter, EncodePart, Text;
    assert ([Text(ps[0])] + Texts(ps[1..]))[1..] == Texts(ps[1..]);
  }

  lemma {:induction false} Regroup(a: Bytes, b: Bytes, c: Bytes, d: Bytes, e: Bytes)
    ensures a + b + c + (d + e) == a + (b + c + d + e)
    ensures a + b + c + (d + e) + [] == a + (b + c + d + e)
    ensures (a + b + c + []) + (d + e) == a + (b + c + d + e)
  {
  }

  /** A first encode(): the bytes are a delimiter short of its leading CRLF, and what the
      parser expects after it. */
  lemma {:induction false} FirstEncoding(boundary: Bytes, ps: seq<Part>)
    requires Unmarked(ps) && ps != []
    ensures CRLF + EncodeParts(boundary, MarkEnds(ps)) == Delimiter(boundary) + After(boundary, Texts(ps))
  {
    var m := MarkEnds(ps);
    var p := m[0].(hasInitialBoundary := false);
    MarkedTail(ps);
    SameTexts(ps, [p] + m[1..]);
    hide *;
    TailEncoding(boundary, [p] + m[1..]);
    InitialMissing(boundary, p, m[1..]);
  }

  lemma {:induction false} InitialMissing(boundary: Bytes, p: Part, rest: seq<Part>)
    requires !p.hasInitialBoundary
    ensures CRLF + EncodeParts(boundary, [p.(hasInitialBoundary := true)] + rest) == EncodeParts(boundary, [p] + rest)
  {
    var q := p.(hasInitialBoundary := true);
    OnePart(boundary, p);
    TailUnfold(boundary, [p] + rest);
    TailUnfold(boundary, [q] + rest);
    Associate(CRLF, EncodePart(boundary, q), EncodeParts(boundary, rest));
    hide *;
    assert ([p] + rest)[1..] == rest && ([q] + rest)[1..] == rest;
  }

  lemma {:induction false} Associate(a: Bytes, b: Bytes, c: Bytes)
    ensures a + (b + c) == (a + b) + c
  {
  }

  lemma {:induction false} MarkedTail(ps: seq<Part>)
    requires Unmarked(ps) && ps != []
    ensures var m := MarkEnds(ps);
            && m[0].hasInitialBoundary
            && Tail([m[0].(hasInitialBoundary := false)] + m[1..])
            && m == [m[0].(hasInitialBoundary := false).(hasInitialBoundary := true)] + m[1..]
            && forall i :: 0 <= i < |ps| ==> m[i].headers == ps[i].headers && m[i].body == ps[i].body
  {
    assert forall i :: 0 <= i < |ps| ==> ps[i] in ps;
  }

  lemma {:induction false} SameTexts(ps: seq<Part>, qs: seq<Part>)
    requires |ps| == |qs| && forall i :: 0 <= i < |ps| ==> ps[i].headers == qs[i].headers && ps[i].body == qs[i].body
    ensures Texts(ps) == Texts(qs)
  {
    if ps != [] {
      SameTexts(ps[1..], qs[1..]);
      hide EncodeHeaders;
    }
  }

  lemma {:induction false} EncodedTextsIff(boundary: Bytes, ps: seq<Part>)
    requires 13 !in boundary && Unmarked(ps) && ps != []
    ensures ParseTexts(EncodeParts(boundary, MarkEnds(ps)), boundary) == Some(Texts(ps))
            <==> Separable(boundary, Texts(ps))
  {
    var d, s := Delimiter(boundary), EncodeParts(boundary, MarkEnds(ps));
    FirstEncoding(boundary, ps);
    TextsRecoveredIff(boundary, Texts(ps));
    hide Delimiter, MarkEnds, EncodeParts, After, Find, ParseBodies, Separable;
    assert (CRLF + s)[0..0 + |d|] == d;
    FindAt(CRLF + s, d, 0);
    assert (CRLF + s)[|d|..] == After(boundary, Texts(ps));
  }

  // ----- Headers -----

  /** The line of the header holds no CRLF and the name no colon. */
  predicate CleanHeader(h: Header) { Find(HeaderLine(h), CRLF).None? && 58 !in h.name }

  predicate CleanHeaders(headers: seq<Header>) { forall h <- headers :: CleanHeader(h) }

  lemma {:induction false} FindByte(s: Bytes, b: byte)
    ensures Find(s, [b]).None? <==> b !in s
    ensures Find(s, [b]).Some? ==> b !in s[..Find(s, [b]).value]
  {
    forall j: nat | j < |s| ensures Occurs(s, [b], j) <==> s[j] == b {
      assert s[j..j + 1] == [s[j]];
    }
    hide Find;
  }

  /** A header is read back exactly when its name holds no colon. */
  lemma {:induction false} HeaderRecoveredIff(h: Header)
    ensures ParseHeader(HeaderLine(h)) == Some(h) <==> 58 !in h.name
  {
    var line, rest := HeaderLine(h), [32] + h.value;
    assert line == h.name + [58] + rest;
    FindFollowing(h.name, [58], rest);
    FindByte(h.name, 58);
    hide Find;
    assert line[..|h.name|] == h.name && line[|h.name| + 1..] == rest && rest[1..] == h.value;
  }

  /** A CRLF at position j. */
  predicate BreakAt(s: Bytes, j: int) { 0 <= j && j + 1 < |s| && s[j] == 13 && s[j + 1] == 10 }

  lemma {:induction false} UnbrokenIff(s: Bytes)
    ensures Find(s, CRLF).None? <==> forall j :: !BreakAt(s, j)
  {
    forall j: nat ensures Occurs(s, CRLF, j) <==> BreakAt(s, j) {
      if j + 2 <= |s| { assert s[j..j + 2] == [s[j], s[j + 1]]; }
    }
    hide Find, Occurs;
    if Find(s, CRLF).Some? { assert BreakAt(s, Find(s, CRLF).value); }
  }

  /** What is read from a line without CRLF is clean. */
  lemma {:induction false} ParsedHeaderClean(line: Bytes)
    requires Find(line, CRLF).None? && ParseHeader(line).Some?
    ensures CleanHeader(ParseHeader(line).value)
  {
    hide Find, ParseHeader, HeaderLine, BreakAt;
    var h := ParseHeader(line).value;
    var k, skipped := ParsedPieces(line);
    UnbrokenIff(line);
    UnbrokenIff(HeaderLine(h));
    HeaderUnbroken(line, k, skipped);
  }

  lemma {:induction false} ParsedPieces(line: Bytes) returns (k: nat, skipped: nat)
    requires ParseHeader(line).Some?
    ensures k <= |line| && skipped <= |line|
    ensures ParseHeader(line).value == Header(line[..k], line[skipped..])
    ensures 58 !in ParseHeader(line).value.name
  {
    hide Find;
    FindByte(line, 58);
    k := Find(line, [58]).value;
    skipped := if k + 1 < |line| && line[k + 1] == 32 then k + 2 else k + 1;
  }

  lemma {:induction false} HeaderUnbroken(line: Bytes, k: nat, skipped: nat)
    requires k <= |line| && skipped <= |line| && forall j :: !BreakAt(line, j)
    ensures forall j :: !BreakAt(HeaderLine(Header(line[..k], line[skipped..])), j)
  {
    var out := HeaderLine(Header(line[..k], line[skipped..]));
    forall j ensures !BreakAt(out, j) {
      assert !BreakAt(line, j) && !BreakAt(line, j - k - 2 + skipped);
    }
  }

  lemma {:induction false} BeforeFound(s: Bytes, p: Bytes)
    requires p != [] && Find(s, p).Some?
    ensures Find(s[..Find(s, p).value], p).None?
  {
    var at := Find(s, p).value;
    forall j: nat | j + |p| <= at ensures Occurs(s[..at], p, j) ==> Occurs(s, p, j) {
      assert s[..at][j..j + |p|] == s[j..j + |p|];
    }
    hide Find;
  }

  lemma {:induction false} ParsedPartClean(s: Bytes)
    ensures ParsePart(s).Some? ==> CleanHeaders(ParsePart(s).value.headers)
  {
    var at := Find(s, CRLF);
    if at.Some? && at.value > 0 && ParsePart(s).Some? {
      BeforeFound(s, CRLF);
      ParsedHeaderClean(s[..at.value]);
      ParsedPartClean(s[at.value + 2..]);
      hide Find, ParseHeader, CleanHeader;
    }
  }

  lemma {:induction false} ParseLine(h: Header, rest: Bytes)
    requires CleanHeader(h)
    ensures var later := ParsePart(rest);
            ParsePart(HeaderLine(h) + CRLF + rest) ==
            if later.None? then None else Some(Received([h] + later.value.headers, later.value.body))
  {
    var line := HeaderLine(h);
    var s := line + CRLF + rest;
    HeaderRecoveredIff(h);
    FindFollowing(line, CRLF, rest);
    assert |line| > 0;
    hide Find, ParseHeader, HeaderLine;
    assert s[..|line|] == line && s[|line| + 2..] == rest;
  }

  lemma {:induction false} ParseEmptyLine(body: Bytes)
    ensures ParsePart(CRLF + body) == Some(Received([], body))
  {
    var s := CRLF + body;
    assert s[0..0 + |CRLF|] == CRLF;
    FindAt(s, CRLF, 0);
    hide Find;
  }

  lemma {:induction false} CleanPartParses(headers: seq<Header>, body: Bytes)
    requires CleanHeaders(headers)
    ensures ParsePart(EncodeHeaders(headers) + body) == Some(Received(headers, body))
  {
    if headers == [] {
      ParseEmptyLine(body);
    } else {
      var rest := EncodeHeaders(headers[1..]) + body;
      assert EncodeHeaders(headers) + body == HeaderLine(headers[0]) + CRLF + rest;
      assert headers == [headers[0]] + headers[1..];
      hide ParsePart, EncodeHeaders, HeaderLine, CleanHeader;
      ParseLine(headers[0], rest);
      CleanPartParses(headers[1..], body);
    }
  }

  /** The headers, names and values, and the body come back exactly when every header is
      clean. */
  lemma {:induction false} PartRecoveredIff(headers: seq<Header>, body: Bytes)
    ensures ParsePart(EncodeHeaders(headers) + body) == Some(Received(headers, body)) <==> CleanHeaders(headers)
  {
    ParsedPartClean(EncodeHeaders(headers) + body);
    hide ParsePart, EncodeHeaders, CleanHeaders;
    if CleanHeaders(headers) { CleanPartParses(headers, body); }
  }

  /** A text that has been cut off loses some of its body, if it can be read at all. */
  lemma {:induction false} CutOffShort(headers: seq<Header>, body: Bytes, k: nat)
    requires CleanHeaders(headers) && k < |EncodeHeaders(headers) + body|
    ensures var p := ParsePart((EncodeHeaders(headers) + body)[..k]); p.Some? ==> |p.value.body| < |body|
    decreases headers
  {
    if headers == [] {
      CutBody(body, k);
    } else {
      hide *;
      var h, rest := headers[0], EncodeHeaders(headers[1..]) + body;
      var line := HeaderLine(h);
      FirstHeader(headers, body);
      if k >= |line| + 2 {
        assert (line + CRLF + rest)[..k] == line + CRLF + rest[..k - |line| - 2] by { assert |CRLF| == 2; }
        assert |CRLF| == 2;
        ParseLine(h, rest[..k - |line| - 2]);
        CutOffShort(headers[1..], body, k - |line| - 2);
      } else {
        CutInLine(line, rest, k);
      }
    }
  }

  lemma {:induction false} FirstHeader(headers: seq<Header>, body: Bytes)
    requires headers != [] && CleanHeaders(headers)
    ensures EncodeHeaders(headers) + body == HeaderLine(headers[0]) + CRLF + (EncodeHeaders(headers[1..]) + body)
    ensures CleanHeader(headers[0]) && Find(HeaderLine(headers[0]), CRLF).None? && CleanHeaders(headers[1..])
  {
    hide HeaderLine, Find;
    assert headers == [headers[0]] + headers[1..] && CleanHeader(headers[0]);
  }

  lemma {:induction false} CutBody(body: Bytes, k: nat)
    requires k < |EncodeHeaders([]) + body|
    ensures var p := ParsePart((EncodeHeaders([]) + body)[..k]); p.Some? ==> |p.value.body| < |body|
  {
    var s := (CRLF + body)[..k];
    assert EncodeHeaders([]) == CRLF;
    if k >= 2 {
      assert s == CRLF + body[..k - 2];
      ParseEmptyLine(body[..k - 2]);
    } else {
      assert forall j: nat :: !Occurs(s, CRLF, j);
    }
  }

  lemma {:induction false} CutInLine(line: Bytes, rest: Bytes, k: nat)
    requires Find(line, CRLF).None? && k < |line| + 2
    ensures ParsePart((line + CRLF + rest)[..k]).None?
  {
    var s := (line + CRLF + rest)[..k];
    assert Find(s, CRLF).None? ==> ParsePart(s).None? by { hide Find, BreakAt, ParseHeader; }
    hide *;
    UnbrokenIff(line);
    UnbrokenIff(s);
    CutUnbroken(line, rest, k);
  }

  lemma {:induction false} CutUnbroken(line: Bytes, rest: Bytes, k: nat)
    requires (forall j :: !BreakAt(line, j)) && k < |line| + 2
    ensures forall j :: !BreakAt((line + CRLF + rest)[..k], j)
  {
    var s := (line + CRLF + rest)[..k];
    forall j ensures !BreakAt(s, j) {
      assert !BreakAt(line, j);
    }
  }

  function ReceivedParts(ps: seq<Part>): (rs: seq<Received>)
    ensures |rs| == |ps|
    ensures forall i :: 0 <= i < |ps| ==> rs[i] == Received(ps[i].headers, ps[i].body)
  {
    seq(|ps|, i requires 0 <= i < |ps| => Received(ps[i].headers, ps[i].body))
  }

  predicate AllClean(ps: seq<Part>) { forall p <- ps :: CleanHeaders(p.headers) }

  lemma {:induction false} AllCleanCons(ps: seq<Part>)
    requires ps != []
    ensures AllClean(ps) <==> CleanHeaders(ps[0].headers) && AllClean(ps[1..])
  {
    hide CleanHeaders;
    assert ps == [ps[0]] + ps[1..];
  }

  /** The parser, from just after a delimiter. */
  function ParseAfter(s: Bytes, boundary: Bytes): Option<seq<Received>> {
    var texts := ParseBodies(s, boundary);
    if texts.None? then None else ParseParts(texts.value)
  }

  lemma {:induction false} PartsRecoveredIff(boundary: Bytes, ps: seq<Part>)
    requires 13 !in boundary
    ensures ParseAfter(After(boundary, Texts(ps)), boundary) == Some(ReceivedParts(ps))
            <==> Separable(boundary, Texts(ps)) && AllClean(ps)
  {
    if ps == [] {
      assert DASHES <= DASHES + CRLF;
    } else {
      hide *;
      var later := After(boundary, Texts(ps[1..]));
      TailUnfold(boundary, ps);
      TextsCons(ps);
      FirstText(boundary, Texts(ps));
      AllCleanCons(ps);
      PartsRecoveredIff(boundary, ps[1..]);
      ReceivedTail(ps);
      if Find(Text(ps[0]), Delimiter(boundary)).None? {
        KeptText(boundary, ps, later);
      } else {
        LostText(boundary, ps, later);
      }
    }
  }

  lemma {:induction false} ReceivedTail(ps: seq<Part>)
    requires ps != []
    ensures ReceivedParts(ps)[1..] == ReceivedParts(ps[1..])
  {
  }

  lemma {:induction false} KeptText(boundary: Bytes, ps: seq<Part>, later: Bytes)
    requires 13 !in boundary && ps != [] && Find(Text(ps[0]), Delimiter(boundary)).None?
    ensures ParseAfter(CRLF + Text(ps[0]) + Delimiter(boundary) + later, boundary) == Some(ReceivedParts(ps)) <==>
            CleanHeaders(ps[0].headers) && ParseAfter(later, boundary) == Some(ReceivedParts(ps)[1..])
  {
    PartRecoveredIff(ps[0].headers, ps[0].body);
    assert Text(ps[0]) == EncodeHeaders(ps[0].headers) + ps[0].body;
    hide *;
    ParseFirst(boundary, Text(ps[0]), later);
    FirstRecoveredIff(boundary, ps, Text(ps[0]), later);
  }

  lemma {:induction false} LostText(boundary: Bytes, ps: seq<Part>, later: Bytes)
    requires 13 !in boundary && ps != [] && Find(Text(ps[0]), Delimiter(boundary)).Some?
    ensures ParseAfter(CRLF + Text(ps[0]) + Delimiter(boundary) + later, boundary) != Some(ReceivedParts(ps))
  {
    var p, k := ps[0], Find(Text(ps[0]), Delimiter(boundary)).value;
    assert Text(p) == EncodeHeaders(p.headers) + p.body;
    assert |Delimiter(boundary)| > 0;
    hide *;
    ParseFirst(boundary, Text(p), later);
    ParsedPartClean(Text(p)[..k]);
    if CleanHeaders(p.headers) { CutOffShort(p.headers, p.body, k); }
    FirstLost(boundary, ps, CRLF + Text(p) + Delimiter(boundary) + later);
  }

  lemma {:induction false} TextsCons(ps: seq<Part>)
    requires ps != []
    ensures Texts(ps) == [Text(ps[0])] + Texts(ps[1..]) && Texts(ps)[0] == Text(ps[0])
    ensures Texts(ps)[1..] == Texts(ps[1..])
  {
    hide Text;
  }

  lemma {:induction false} FirstRecoveredIff(boundary: Bytes, ps: seq<Part>, t: Bytes, later: Bytes)
    requires ps != []
    requires var all := ParseBodies(CRLF + t + Delimiter(boundary) + later, boundary);
             var rest := ParseBodies(later, boundary);
             all == if rest.None? then None else Some([t] + rest.value)
    ensures ParseAfter(CRLF + t + Delimiter(boundary) + later, boundary) == Some(ReceivedParts(ps)) <==>
            && ParsePart(t) == Some(ReceivedParts(ps)[0])
            && ParseAfter(later, boundary) == Some(ReceivedParts(ps)[1..])
  {
    hide ParseBodies, ParsePart, Delimiter;
    var rest := ParseBodies(later, boundary);
    if rest.Some? {
      assert ([t] + rest.value)[1..] == rest.value;
      ConsEqual(ParsePart(t), ParseParts(rest.value), ReceivedParts(ps));
    }
  }

  lemma {:induction false} FirstLost(boundary: Bytes, ps: seq<Part>, s: Bytes)
    requires ps != []
    requires ParseBodies(s, boundary).Some? ==>
               ParseBodies(s, boundary).value != [] &&
               ParsePart(ParseBodies(s, boundary).value[0]) != Some(Received(ps[0].headers, ps[0].body))
    ensures ParseAfter(s, boundary) != Some(ReceivedParts(ps))
  {
    hide ParseBodies, ParsePart;
    var texts := ParseBodies(s, boundary);
    if texts.Some? { ConsEqual(ParsePart(texts.value[0]), ParseParts(texts.value[1..]), ReceivedParts(ps)); }
  }

  lemma {:induction false} NothingParses(boundary: Bytes)
    ensures Parse([], boundary).None?
  {
    assert CRLF + [] == CRLF && |Delimiter(boundary)| > |CRLF|;
    assert forall j: nat :: !Occurs(CRLF, Delimiter(boundary), j);
  }

  /** Unique decodability: from a first encode() the reference parser recovers exactly the
      names and values of the headers and the bodies, when and only when there are any parts,
      no part's text holds the delimiter, no header line a CRLF and no header name a colon. */
  lemma {:induction false} PartsDecodeIff(boundary: Bytes, ps: seq<Part>)
    requires 13 !in boundary && Unmarked(ps)
    ensures Parse(EncodeParts(boundary, MarkEnds(ps)), boundary) == Some(ReceivedParts(ps))
            <==> ps != [] && Separable(boundary, Texts(ps)) && AllClean(ps)
  {
    if ps == [] {
      NothingParses(boundary);
    } else {
      FirstDelimiter(boundary, ps);
      PartsRecoveredIff(boundary, ps);
    }
    hide Parse, Separable, AllClean, Unmarked, ParseAfter;
  }

  lemma {:induction false} FirstDelimiter(boundary: Bytes, ps: seq<Part>)
    requires Unmarked(ps) && ps != []
    ensures Parse(EncodeParts(boundary, MarkEnds(ps)), boundary)
            == ParseAfter(After(boundary, Texts(ps)), boundary)
  {
    var d, s := Delimiter(boundary), EncodeParts(boundary, MarkEnds(ps));
    FirstEncoding(boundary, ps);
    hide Delimiter, MarkEnds, EncodeParts, After, Find, ParseBodies, ParseParts, Texts;
    assert (CRLF + s)[0..0 + |d|] == d;
    assert |d| >= 2 by { Boundaries(boundary); }
    FindAt(CRLF + s, d, 0);
    assert (CRLF + s)[|d|..] == After(boundary, Texts(ps));
  }

  lemma {:induction false} EmptyEncoding(boundary: Bytes, ps: seq<Part>)
    ensures EncodeParts(boundary, MarkEnds(ps)) == [] <==> ps == []
  {
    hide MarkEnds, EncodeHeaders;
    if ps != [] {
      var m := MarkEnds(ps);
      assert |BoundaryData(if m[0].hasInitialBoundary then BoundaryType.Initial else Encapsulated, boundary)| > 0;
      hide BoundaryData;
      assert |EncodePart(boundary, m[0])| > 0;
    }
  }

  /** So two lists of such parts with the same bytes have the same headers and bodies; the
      empty list is the only one with no bytes. */
  lemma {:induction false} EncodingInjective(boundary: Bytes, ps: seq<Part>, qs: seq<Part>)
    requires 13 !in boundary && Unmarked(ps) && Unmarked(qs)
    requires Separable(boundary, Texts(ps)) && AllClean(ps) && Separable(boundary, Texts(qs)) && AllClean(qs)
    requires EncodeParts(boundary, MarkEnds(ps)) == EncodeParts(boundary, MarkEnds(qs))
    ensures |ps| == |qs| && forall i :: 0 <= i < |ps| ==> ps[i].headers == qs[i].headers && ps[i].body == qs[i].body
  {
    hide *;
    EmptyEncoding(boundary, ps);
    EmptyEncoding(boundary, qs);
    PartsDecodeIff(boundary, ps);
    PartsDecodeIff(boundary, qs);
    if ps != [] { SameParts(ps, qs); }
  }

  lemma {:induction false} SameParts(ps: seq<Part>, qs: seq<Part>)
    requires ReceivedParts(ps) == ReceivedParts(qs)
    ensures |ps| == |qs| && forall i :: 0 <= i < |ps| ==> ps[i].headers == qs[i].headers && ps[i].body == qs[i].body
  {
    assert |ps| == |ReceivedParts(ps)| == |qs|;
    forall i | 0 <= i < |ps| ensures ps[i].headers == qs[i].headers && ps[i].body == qs[i].body {
      assert ReceivedParts(ps)[i] == ReceivedParts(qs)[i];
    }
  }
}
