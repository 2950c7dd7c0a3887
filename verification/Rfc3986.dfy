/**
 Paths as RFC 3986 reads them: segments between slashes, percent-decoding (section 2.1)
 and the removal of dot-segments (section 5.2.4).  A string is a sequence of octets, each
 a character below 256.
 */
module Rfc3986 {
  import opened Text

  // ---------------------------------------------------------------- substrings

  predicate StartsWith(s: string, pattern: string) {
    |pattern| <= |s| && s[..|pattern|] == pattern
  }

  predicate EndsWith(s: string, pattern: string) {
    |pattern| <= |s| && s[|s| - |pattern|..] == pattern
  }

  predicate Contains(s: string, pattern: string) {
    StartsWith(s, pattern) || (s != "" && Contains(s[1..], pattern))
  }

  lemma {:induction false} ContainsAt(s: string, pattern: string, i: nat)
    requires i <= |s| && StartsWith(s[i..], pattern)
    ensures Contains(s, pattern)
  {
    if i == 0 {
      assert s[0..] == s;
    } else {
      assert s[1..][i - 1..] == s[i..];
      ContainsAt(s[1..], pattern, i - 1);
    }
  }

  /** A one-character pattern is membership. */
  lemma {:induction false} ContainsChar(s: string, c: char)
    ensures Contains(s, [c]) <==> c in s
  {
    if s == "" {
    } else {
      ContainsChar(s[1..], c);
      assert s[..1] == [s[0]] && s == [s[0]] + s[1..];
    }
  }

  /** Where a pattern occurs, its characters do. */
  lemma {:induction false} ContainsNeeds(s: string, pattern: string, c: char)
    requires Contains(s, pattern) && c in pattern
    ensures c in s
  {
    if StartsWith(s, pattern) {
      var i :| 0 <= i < |pattern| && pattern[i] == c;
      assert s[..|pattern|][i] == s[i];
    } else {
      ContainsNeeds(s[1..], pattern, c);
    }
  }

  // ---------------------------------------------------------------- segments

  /** What `split('/')` yields. */
  function Split(s: string): (segments: seq<string>)
    ensures |segments| >= 1
  {
    if s == "" then [""]
    else if s[0] == '/' then [""] + Split(s[1..])
    else
      var rest := Split(s[1..]);
      [[s[0]] + rest[0]] + rest[1..]
  }

  function NextSlash(s: string): (i: nat)
    ensures i <= |s|
  {
    if s == "" || s[0] == '/' then 0 else 1 + NextSlash(s[1..])
  }

  /** The first segment ends at the first slash, and the others are those of what follows it. */
  lemma {:induction false} SplitAtSlash(s: string)
    ensures Split(s)[0] == s[..NextSlash(s)]
    ensures NextSlash(s) == |s| ==> Split(s) == [s]
    ensures NextSlash(s) < |s| ==> s[NextSlash(s)] == '/'
    ensures NextSlash(s) < |s| ==> Split(s) == [s[..NextSlash(s)]] + Split(s[NextSlash(s) + 1..])
  {
    if s != "" && s[0] != '/' {
      var tail := s[1..];
      SplitAtSlash(tail);
      var i := NextSlash(tail);
      assert s[..i + 1] == [s[0]] + tail[..i];
      if i < |tail| {
        assert s[i + 2..] == tail[i + 1..];
      } else {
        assert s == [s[0]] + tail;
      }
    }
  }

  lemma {:induction false} SegmentsHaveNoSlash(s: string, k: nat)
    requires k < |Split(s)|
    ensures '/' !in Split(s)[k]
  {
    if s == "" {
    } else {
      var rest := Split(s[1..]);
      if s[0] == '/' {
        if k > 0 { SegmentsHaveNoSlash(s[1..], k - 1); }
      } else {
        SegmentsHaveNoSlash(s[1..], k);
        assert k > 0 ==> Split(s)[k] == rest[k];
      }
    }
  }

  /** A text without a slash is one segment, and the segments of a join are those joined. */
  lemma {:induction false} SplitJoined(first: string, rest: string)
    requires '/' !in first
    ensures Split(first) == [first]
    ensures Split(first + "/" + rest) == [first] + Split(rest)
  {
    if first == "" {
      assert first + "/" + rest == "/" + rest && ("/" + rest)[1..] == rest;
    } else {
      var tail := first[1..];
      SplitJoined(tail, rest);
      var whole := first + "/" + rest;
      assert whole[0] == first[0] && whole[0] != '/' && whole[1..] == tail + "/" + rest;
      assert first == [first[0]] + tail;
    }
  }

  /** A pattern without a slash occurs in a path exactly when it occurs in one of its segments. */
  lemma {:induction false} ContainsInSegment(s: string, pattern: string)
    requires pattern != "" && '/' !in pattern
    ensures Contains(s, pattern) <==> exists k :: 0 <= k < |Split(s)| && Contains(Split(s)[k], pattern)
  {
    var segments := Split(s);
    if s == "" {
      assert Split(s)[0] == "";
    } else {
      ContainsInSegment(s[1..], pattern);
      var rest := Split(s[1..]);
      if s[0] == '/' {
        StartsWithHead(s, pattern);
        assert segments == [""] + rest;
        if Contains(s, pattern) {
          var k :| 0 <= k < |rest| && Contains(rest[k], pattern);
          assert segments[k + 1] == rest[k];
        }
      } else {
        StartsInFirstSegment(s, pattern);
        assert segments[0] == [s[0]] + rest[0] && segments[0][1..] == rest[0];
        if Contains(s, pattern) && !StartsWith(s, pattern) {
          var k :| 0 <= k < |rest| && Contains(rest[k], pattern);
          assert k > 0 ==> segments[k] == rest[k];
          assert Contains(segments[k], pattern);
        }
        forall k | 0 <= k < |segments| && Contains(segments[k], pattern) ensures Contains(s, pattern) {
          assert k > 0 ==> segments[k] == rest[k];
          if k == 0 && !StartsWith(segments[0], pattern) {
            assert Contains(rest[0], pattern);
          }
        }
      }
    }
  }

  lemma StartsWithHead(s: string, pattern: string)
    requires pattern != ""
    ensures StartsWith(s, pattern) ==> s[0] == pattern[0]
  {
    if StartsWith(s, pattern) { assert s[..|pattern|][0] == s[0]; }
  }

  lemma StartsWithAt(s: string, pattern: string, i: nat)
    requires i < |pattern|
    ensures StartsWith(s, pattern) ==> s[i] == pattern[i]
  {
    if StartsWith(s, pattern) { assert s[..|pattern|][i] == s[i]; }
  }

  lemma StartsWithTail(s: string, pattern: string)
    requires pattern != ""
    ensures StartsWith(s, pattern) ==> StartsWith(s[1..], pattern[1..])
  {
    if StartsWith(s, pattern) { assert s[1..][..|pattern| - 1] == s[..|pattern|][1..]; }
  }

  /** A slash-free prefix ends before the first slash. */
  lemma {:induction false} PrefixBeforeSlash(s: string, pattern: string)
    requires '/' !in pattern && StartsWith(s, pattern)
    ensures |pattern| <= NextSlash(s)
  {
    if pattern == "" {
    } else {
      StartsWithHead(s, pattern);
      StartsWithTail(s, pattern);
      PrefixBeforeSlash(s[1..], pattern[1..]);
    }
  }

  lemma StartsInFirstSegment(s: string, pattern: string)
    requires '/' !in pattern
    ensures StartsWith(s, pattern) <==> StartsWith(Split(s)[0], pattern)
  {
    SplitAtSlash(s);
    if StartsWith(s, pattern) {
      PrefixBeforeSlash(s, pattern);
    }
    assert |pattern| <= NextSlash(s) ==> s[..|pattern|] == s[..NextSlash(s)][..|pattern|];
  }

  // ---------------------------------------------------------------- percent-decoding

  function HexValue(c: char): (v: nat)
    requires IsHexDigit(c)
    ensures v < 16
  {
    if '0' <= c <= '9' then (c - '0') as int
    else if 'a' <= c <= 'f' then 10 + (c - 'a') as int
    else 10 + (c - 'A') as int
  }

  /** A percent-encoded octet at the start. */
  predicate Encoded(s: string) {
    |s| >= 3 && s[0] == '%' && IsHexDigit(s[1]) && IsHexDigit(s[2])
  }

  function Octet(s: string): char
    requires Encoded(s)
  {
    (16 * HexValue(s[1]) + HexValue(s[2])) as char
  }

  function PctDecode(s: string): string {
    if s == "" then ""
    else if Encoded(s) then [Octet(s)] + PctDecode(s[3..])
    else [s[0]] + PctDecode(s[1..])
  }

  /** Nothing in the text encodes this octet. */
  predicate NeverEncodes(s: string, c: char) {
    forall i :: 0 <= i <= |s| && Encoded(s[i..]) ==> Octet(s[i..]) != c
  }

  lemma NeverEncodesRest(s: string, c: char, n: nat)
    requires NeverEncodes(s, c) && n <= |s|
    ensures NeverEncodes(s[n..], c)
  {
    forall i | 0 <= i <= |s[n..]| && Encoded(s[n..][i..]) ensures Octet(s[n..][i..]) != c {
      assert s[n..][i..] == s[n + i..];
    }
  }

  function MapDecode(segments: seq<string>): (decoded: seq<string>)
    ensures |decoded| == |segments|
    ensures forall k :: 0 <= k < |segments| ==> decoded[k] == PctDecode(segments[k])
  {
    if segments == [] then [] else [PctDecode(segments[0])] + MapDecode(segments[1..])
  }

  lemma SplitAfterTriplet(s: string)
    requires Encoded(s)
    ensures Split(s)[0] == s[..3] + Split(s[3..])[0] && Split(s)[1..] == Split(s[3..])[1..]
    ensures PctDecode(Split(s)[0]) == [Octet(s)] + PctDecode(Split(s[3..])[0])
  {
    assert s[1..][1..] == s[2..] && s[2..][1..] == s[3..];
    var rest := Split(s[3..]);
    assert Split(s[2..]) == [[s[2]] + rest[0]] + rest[1..];
    assert Split(s[1..]) == [[s[1]] + ([s[2]] + rest[0])] + rest[1..];
    var first := Split(s)[0];
    assert first == [s[0]] + ([s[1]] + ([s[2]] + rest[0]));
    assert s[..3] == [s[0], s[1], s[2]];
    assert Encoded(first) && Octet(first) == Octet(s) && first[3..] == rest[0];
  }

  /** If no slash is encoded, decoding commutes with splitting. */
  lemma {:induction false} DecodingCommutesWithSplitting(s: string)
    requires NeverEncodes(s, '/')
    ensures Split(PctDecode(s)) == MapDecode(Split(s))
    decreases |s|
  {
    if s == "" {
    } else if Encoded(s) {
      assert s[0..] == s;
      NeverEncodesRest(s, '/', 3);
      DecodingCommutesWithSplitting(s[3..]);
      SplitAfterTriplet(s);
      var rest := PctDecode(s[3..]);
      assert ([Octet(s)] + rest)[1..] == rest;
      assert MapDecode(Split(s))[1..] == MapDecode(Split(s)[1..]) == MapDecode(Split(s[3..]))[1..];
    } else {
      NeverEncodesRest(s, '/', 1);
      DecodingCommutesWithSplitting(s[1..]);
      var rest := PctDecode(s[1..]);
      assert ([s[0]] + rest)[1..] == rest;
      if s[0] != '/' {
        PlainHeadDecodes(s);
      }
    }
  }

  lemma PlainHeadDecodes(s: string)
    requires s != "" && s[0] != '/' && !Encoded(s)
    ensures PctDecode(Split(s)[0]) == [s[0]] + PctDecode(Split(s[1..])[0])
  {
    SplitAtSlash(s);
    var first := Split(s)[0];
    assert first[1..] == Split(s[1..])[0];
    assert !Encoded(first);
  }

  /** Text that encodes no `c` decodes to a run of `c` only if it is that run. */
  lemma {:induction false} DecodesToRun(s: string, c: char)
    requires NeverEncodes(s, c) && (forall i :: 0 <= i < |PctDecode(s)| ==> PctDecode(s)[i] == c)
    ensures PctDecode(s) == s
    decreases |s|
  {
    if s == "" {
    } else {
      assert s[0..] == s;
      assert PctDecode(s)[0] == c;
      assert !Encoded(s);
      NeverEncodesRest(s, c, 1);
      assert forall i :: 0 <= i < |PctDecode(s[1..])| ==> PctDecode(s[1..])[i] == PctDecode(s)[i + 1];
      DecodesToRun(s[1..], c);
    }
  }

  // ---------------------------------------------------------------- dot-segments

  /** The output buffer without its last segment and the slash before it, if any. */
  function DropLast(output: string): string {
    if output == "" then ""
    else if output[|output| - 1] == '/' then output[..|output| - 1]
    else DropLast(output[..|output| - 1])
  }

  /** The steps A to E of section 5.2.4, on its input and output buffers. */
  function RemoveDots(input: string, output: string): string
    decreases |input|
  {
    if input == "" then output
    else if StartsWith(input, "../") then RemoveDots(input[3..], output)
    else if StartsWith(input, "./") then RemoveDots(input[2..], output)
    else if StartsWith(input, "/./") then RemoveDots(input[2..], output)
    else if input == "/." then RemoveDots("/", output)
    else if StartsWith(input, "/../") then RemoveDots(input[3..], DropLast(output))
    else if input == "/.." then RemoveDots("/", DropLast(output))
    else if input == "." || input == ".." then RemoveDots("", output)
    else
      var n := 1 + NextSlash(input[1..]);
      RemoveDots(input[n..], output + input[..n])
  }

  function RemoveDotSegments(path: string): string {
    RemoveDots(path, "")
  }

  predicate IsDots(segment: string) {
    segment == "." || segment == ".."
  }

  predicate DotFree(segments: seq<string>) {
    forall k :: 0 <= k < |segments| ==> !IsDots(segments[k])
  }

  /** Empty, or an absolute path without dot-segments. */
  predicate Plain(input: string) {
    input == "" || (input[0] == '/' && DotFree(Split(input[1..])))
  }

  /** Where the first segment and its slash end. */
  function SegmentEnd(input: string): (n: nat)
    requires input != ""
    ensures 0 < n <= |input|
  {
    1 + NextSlash(input[1..])
  }

  /** Rule E: a slash and an ordinary segment move to the output. */
  lemma SegmentMoves(input: string, output: string)
    requires input != "" && Plain(input)
    ensures var n := SegmentEnd(input);
            RemoveDots(input, output) == RemoveDots(input[n..], output + input[..n])
  {
    NotADotSegment(input, Split(input[1..])[0]);
  }

  lemma RestIsPlain(input: string)
    requires input != "" && Plain(input)
    ensures Plain(input[SegmentEnd(input)..])
  {
    var tail, n := input[1..], SegmentEnd(input);
    SplitAtSlash(tail);
    if n < |input| {
      var rest := Split(tail[n..]);
      assert input[n..][0] == tail[n - 1] && input[n..][1..] == tail[n..];
      forall k | 0 <= k < |rest| ensures !IsDots(rest[k]) {
        assert Split(tail)[k + 1] == rest[k];
      }
    }
  }

  lemma Rejoin(output: string, input: string, n: nat)
    requires n <= |input|
    ensures output + input[..n] + input[n..] == output + input
  {
  }

  /** An absolute path without dot-segments passes through unchanged. */
  lemma {:induction false} NoDotsNoChange(input: string, output: string)
    requires Plain(input)
    ensures RemoveDots(input, output) == output + input
    decreases |input|
  {
    if input == "" {
      assert output + input == output;
    } else {
      var n := SegmentEnd(input);
      var rest, out := input[n..], output + input[..n];
      SegmentMoves(input, output);
      RestIsPlain(input);
      NoDotsNoChange(rest, out);
      Rejoin(output, input, n);
    }
  }

  lemma DottedHead(tail: string)
    ensures StartsWith(tail, "../") || tail == ".." ==> Split(tail)[0] == ".."
    ensures StartsWith(tail, "./") || tail == "." ==> Split(tail)[0] == "."
  {
    if StartsWith(tail, "../") {
      assert tail == ".." + "/" + tail[3..];
      SplitJoined("..", tail[3..]);
    } else if StartsWith(tail, "./") {
      assert tail == "." + "/" + tail[2..];
      SplitJoined(".", tail[2..]);
    } else {
      SplitJoined("..", "");
      SplitJoined(".", "");
    }
  }

  /** None of the rules A to D applies at a slash followed by an ordinary segment. */
  lemma NotADotSegment(input: string, first: string)
    requires input != "" && input[0] == '/' && first == Split(input[1..])[0] && !IsDots(first)
    ensures !StartsWith(input, "../") && !StartsWith(input, "./") && !StartsWith(input, "/./") && input != "/."
    ensures !StartsWith(input, "/../") && input != "/.." && input != "." && input != ".."
  {
    var tail := input[1..];
    DottedHead(tail);
    assert input == "/" + tail && input[..1] == "/";
    StartsWithTail(input, "/../");
    StartsWithTail(input, "/./");
    assert "/../"[1..] == "../" && "/./"[1..] == "./";
  }

  lemma DropLastIsShorter(output: string)
    ensures |DropLast(output)| <= |output|
  {
  }

  /** Nothing is added. */
  lemma {:induction false} RemoveDotsAddsNothing(input: string, output: string)
    ensures |RemoveDots(input, output)| <= |input| + |output|
    decreases |input|
  {
    if input == "" {
    } else if StartsWith(input, "../") {
      RemoveDotsAddsNothing(input[3..], output);
    } else if StartsWith(input, "./") || StartsWith(input, "/./") {
      RemoveDotsAddsNothing(input[2..], output);
    } else if input == "/." {
      RemoveDotsAddsNothing("/", output);
    } else if StartsWith(input, "/../") {
      DropLastIsShorter(output);
      RemoveDotsAddsNothing(input[3..], DropLast(output));
    } else if input == "/.." {
      DropLastIsShorter(output);
      RemoveDotsAddsNothing("/", DropLast(output));
    } else if input == "." || input == ".." {
      RemoveDotsAddsNothing("", output);
    } else {
      var n := SegmentEnd(input);
      RemoveDotsAddsNothing(input[n..], output + input[..n]);
    }
  }

  /** A first dot-segment with others behind it goes, and something with it. */
  lemma DotsInFrontGo(input: string, output: string, dots: string)
    requires IsDots(dots) && StartsWith(input, "/" + dots + "/")
    ensures |RemoveDots(input, output)| < |input| + |output|
  {
    DottedStart(input, dots);
    DropLastIsShorter(output);
    RemoveDotsAddsNothing(input[|dots| + 1..], output);
    RemoveDotsAddsNothing(input[|dots| + 1..], DropLast(output));
  }

  lemma DotsAloneGo(input: string, output: string)
    requires input == "/." || input == "/.."
    ensures |RemoveDots(input, output)| < |input| + |output|
  {
    StartsWithHead(input, "../");
    StartsWithHead(input, "./");
    StartsWithAt(input, "/./", 2);
    DropLastIsShorter(output);
    RemoveDotsAddsNothing("/", output);
    RemoveDotsAddsNothing("/", DropLast(output));
  }

  lemma FirstDotsGo(input: string, output: string)
    requires input != "" && input[0] == '/' && IsDots(Split(input[1..])[0])
    ensures |RemoveDots(input, output)| < |input| + |output|
  {
    var tail := input[1..];
    SplitAtSlash(tail);
    var n := NextSlash(tail);
    if n == |tail| {
      assert input == "/" + tail[..n];
      DotsAloneGo(input, output);
    } else {
      assert input[..n + 2] == "/" + tail[..n] + "/";
      DotsInFrontGo(input, output, tail[..n]);
    }
  }

  lemma DottedStart(input: string, dots: string)
    requires IsDots(dots) && StartsWith(input, "/" + dots + "/")
    ensures dots == "." ==> StartsWith(input, "/./") && !StartsWith(input, "../") && !StartsWith(input, "./")
    ensures dots == ".." ==> StartsWith(input, "/../") && !StartsWith(input, "../") && !StartsWith(input, "./")
    ensures dots == ".." ==> !StartsWith(input, "/./")
  {
    StartsWithHead(input, "../");
    StartsWithHead(input, "./");
    StartsWithAt(input, "/../", 2);
    StartsWithAt(input, "/./", 2);
    assert "/" + "." + "/" == "/./" && "/" + ".." + "/" == "/../";
  }

  /** Dot-segments of an absolute path shorten it. */
  lemma {:induction false} DotsShorten(input: string, output: string)
    requires input != "" && input[0] == '/' && !Plain(input)
    ensures |RemoveDots(input, output)| < |input| + |output|
    decreases |input|
  {
    if IsDots(Split(input[1..])[0]) {
      FirstDotsGo(input, output);
    } else {
      var tail, n := input[1..], SegmentEnd(input);
      SplitAtSlash(tail);
      NotADotSegment(input, Split(tail)[0]);
      var k :| 0 <= k < |Split(tail)| && IsDots(Split(tail)[k]);
      assert n < |input| && input[n..][0] == tail[n - 1] && input[n..][1..] == tail[n..];
      assert Split(tail[n..])[k - 1] == Split(tail)[k];
      DotsShorten(input[n..], output + input[..n]);
    }
  }

  /** An absolute path is a fixed point of dot-segment removal exactly if it has no dot-segment. */
  lemma FixedExactly(path: string)
    requires path != "" && path[0] == '/'
    ensures RemoveDotSegments(path) == path <==> DotFree(Split(path[1..]))
  {
    if Plain(path) {
      NoDotsNoChange(path, "");
    } else {
      DotsShorten(path, "");
    }
  }

  // ---------------------------------------------------------------- decoding in general

  /** The text between slashes, plain or percent-encoded. */
  function Pieces(s: string): (pieces: seq<string>)
    ensures |pieces| >= 1 && pieces[0] <= s
  {
    if s == "" then [""]
    else if s[0] == '/' then [""] + Pieces(s[1..])
    else if Encoded(s) && Octet(s) == '/' then [""] + Pieces(s[3..])
    else
      var n := if Encoded(s) then 3 else 1;
      var rest := Pieces(s[n..]);
      [s[..n] + rest[0]] + rest[1..]
  }

  lemma EncodedPrefix(prefix: string, s: string)
    requires prefix <= s && |prefix| >= 3
    ensures Encoded(prefix) <==> Encoded(s)
    ensures Encoded(s) ==> Octet(prefix) == Octet(s)
  {
  }

  /** The segments of a decoded text are its pieces, decoded. */
  lemma {:induction false} DecodedSegments(s: string)
    ensures Split(PctDecode(s)) == MapDecode(Pieces(s))
    decreases |s|
  {
    if s == "" {
    } else if Encoded(s) {
      DecodedSegments(s[3..]);
      var rest, pieces := PctDecode(s[3..]), Pieces(s[3..]);
      assert ([Octet(s)] + rest)[1..] == rest;
      if Octet(s) != '/' {
        var first := s[..3] + pieces[0];
        assert first[3..] == pieces[0];
        EncodedPrefix(first, s);
        MapDecodeHead(first, pieces);
      }
    } else {
      DecodedSegments(s[1..]);
      var rest, pieces := PctDecode(s[1..]), Pieces(s[1..]);
      assert ([s[0]] + rest)[1..] == rest;
      if s[0] != '/' {
        var first := s[..1] + pieces[0];
        assert first[1..] == pieces[0];
        if |first| >= 3 { EncodedPrefix(first, s); }
        MapDecodeHead(first, pieces);
      }
    }
  }

  lemma MapDecodeHead(first: string, pieces: seq<string>)
    requires pieces != []
    ensures MapDecode([first] + pieces[1..]) == [PctDecode(first)] + MapDecode(pieces)[1..]
  {
    assert ([first] + pieces[1..])[1..] == pieces[1..];
  }

  lemma NeverEncodesSplits(s: string, c: char, n: nat)
    requires n <= |s| && (forall i :: 0 <= i < n && Encoded(s[i..]) ==> Octet(s[i..]) != c)
    ensures NeverEncodes(s, c) <==> NeverEncodes(s[n..], c)
  {
    if NeverEncodes(s, c) {
      NeverEncodesRest(s, c, n);
    }
    if NeverEncodes(s[n..], c) {
      forall i | 0 <= i <= |s| && Encoded(s[i..]) ensures Octet(s[i..]) != c {
        if i >= n { assert s[n..][i - n..] == s[i..]; }
      }
    }
  }

  /** Inside a percent-encoded octet no other one starts. */
  lemma TripletsDoNotOverlap(s: string, c: char)
    requires Encoded(s) && Octet(s) != c
    ensures NeverEncodes(s, c) <==> NeverEncodes(s[3..], c)
  {
    forall i | 0 <= i < 3 && Encoded(s[i..]) ensures Octet(s[i..]) != c {
      assert s[i..][0] == s[i];
      assert s[0..] == s;
    }
    NeverEncodesSplits(s, c, 3);
  }

  lemma PlainHeadEncodesNothing(s: string, c: char)
    requires s != "" && !Encoded(s)
    ensures NeverEncodes(s, c) <==> NeverEncodes(s[1..], c)
  {
    assert s[0..] == s;
    NeverEncodesSplits(s, c, 1);
  }

  /** There are as many pieces as segments exactly if no slash is encoded. */
  lemma {:induction false} MorePieces(s: string)
    ensures |Pieces(s)| >= |Split(s)|
    ensures |Pieces(s)| == |Split(s)| <==> NeverEncodes(s, '/')
    decreases |s|
  {
    if s == "" {
    } else if Encoded(s) {
      MorePieces(s[3..]);
      SplitAfterTriplet(s);
      if Octet(s) == '/' {
        assert s[0..] == s;
      } else {
        TripletsDoNotOverlap(s, '/');
      }
    } else {
      MorePieces(s[1..]);
      PlainHeadEncodesNothing(s, '/');
    }
  }

  /** Decoding commutes with splitting exactly if no slash is encoded. */
  lemma DecodingCommutesExactly(s: string)
    ensures Split(PctDecode(s)) == MapDecode(Split(s)) <==> NeverEncodes(s, '/')
  {
    DecodedSegments(s);
    MorePieces(s);
    if NeverEncodes(s, '/') {
      DecodingCommutesWithSplitting(s);
    }
  }

  /** A character that is not in a text is in the decoded text exactly if it is encoded. */
  lemma {:induction false} DecodedCharacter(s: string, c: char)
    requires c !in s
    ensures c !in PctDecode(s) <==> NeverEncodes(s, c)
    decreases |s|
  {
    if s == "" {
    } else if Encoded(s) {
      DecodedCharacter(s[3..], c);
      if Octet(s) == c {
        assert s[0..] == s;
        assert PctDecode(s)[0] == c;
      } else {
        TripletsDoNotOverlap(s, c);
      }
    } else {
      DecodedCharacter(s[1..], c);
      PlainHeadEncodesNothing(s, c);
    }
  }

  // ---------------------------------------------------------------- encoding

  function HexDigit(v: nat): char
    requires v < 16
  {
    if v < 10 then '0' + v as char else 'A' + (v - 10) as char
  }

  /** Every octet as a triplet. */
  function PctEncode(s: string): string
    requires forall i :: 0 <= i < |s| ==> (s[i] as int) < 256
  {
    if s == "" then ""
    else ['%', HexDigit(s[0] as int / 16), HexDigit(s[0] as int % 16)] + PctEncode(s[1..])
  }

  lemma HexRoundTrip(v: nat)
    requires v < 16
    ensures IsHexDigit(HexDigit(v)) && HexValue(HexDigit(v)) == v
  {
  }

  /** Decoding gives every sequence of octets back. */
  lemma {:induction false} DecodingInvertsEncoding(s: string)
    requires forall i :: 0 <= i < |s| ==> (s[i] as int) < 256
    ensures PctDecode(PctEncode(s)) == s
  {
    if s == "" {
    } else {
      var coded, rest := PctEncode(s), PctEncode(s[1..]);
      HexRoundTrip(s[0] as int / 16);
      HexRoundTrip(s[0] as int % 16);
      assert coded[3..] == rest && Encoded(coded) && Octet(coded) == s[0];
      DecodingInvertsEncoding(s[1..]);
    }
  }
}
