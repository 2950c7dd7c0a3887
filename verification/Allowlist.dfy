/**
 The path checks and the route table of `allowlist.rs`.  Which paths name a release
 artifact, what parses as a UUID and how large an artifact may be come from elsewhere:
 they are parameters.
 */
module Allowlist {
  import opened Rfc3986
  import opened Text
  import opened Wrappers
  import RateLimit

  datatype Method = GET | POST | PUT | Other(name: string)

  /** What `hecate_protocol` and the `uuid` crate decide. */
  datatype Protocol = Protocol(isReleasePath: string -> bool, isUuid: string -> bool, maxFileBytes: nat)

  // ---------------------------------------------------------------- path checks

  function LowerChar(c: char): char {
    if 'A' <= c <= 'Z' then c - 'A' + 'a' else c
  }

  /** `to_ascii_lowercase`. */
  function Lower(s: string): string {
    seq(|s|, i requires 0 <= i < |s| => LowerChar(s[i]))
  }

  predicate AnyDotSegment(segments: seq<string>) {
    exists k :: 0 <= k < |segments| && IsDots(segments[k])
  }

  /** `canonicalize_agent_path`: the path unchanged, or a refusal. */
  function Canonicalize(path: string): Option<string> {
    var lower := Lower(path);
    if || path == ""
       || !StartsWith(path, "/")
       || Contains(path, "\\")
       || Contains(path, "//")
       || Contains(path, "/./")
       || Contains(path, "..")
       || Contains(lower, "%2e")
       || Contains(lower, "%2f")
       || Contains(lower, "%5c")
    then None
    else if AnyDotSegment(Split(path)) then None
    else Some(path)
  }

  // ---------------------------------------------------------------- what the string tests mean

  lemma {:induction false} ContainsWhere(s: string, pattern: string) returns (i: nat)
    requires Contains(s, pattern)
    ensures i + |pattern| <= |s| && s[i..i + |pattern|] == pattern
  {
    if StartsWith(s, pattern) {
      i := 0;
    } else {
      i := ContainsWhere(s[1..], pattern);
      assert s[1..][i..i + |pattern|] == s[i + 1..i + 1 + |pattern|];
      i := i + 1;
    }
  }

  predicate Codes(c: char, pattern: string) {
    (c == '.' && pattern == "%2e") || (c == '/' && pattern == "%2f") || (c == '\\' && pattern == "%5c")
  }

  lemma HexDigits(high: char, low: char)
    requires IsHexDigit(high) && IsHexDigit(low)
    ensures HexValue(high) == 2 <==> LowerChar(high) == '2'
    ensures HexValue(high) == 5 <==> LowerChar(high) == '5'
    ensures HexValue(low) == 12 <==> LowerChar(low) == 'c'
    ensures HexValue(low) == 14 <==> LowerChar(low) == 'e'
    ensures HexValue(low) == 15 <==> LowerChar(low) == 'f'
  {
  }

  lemma OctetDigits(triplet: string)
    requires |triplet| == 3 && Encoded(triplet)
    ensures Octet(triplet) == '.' <==> HexValue(triplet[1]) == 2 && HexValue(triplet[2]) == 14
    ensures Octet(triplet) == '/' <==> HexValue(triplet[1]) == 2 && HexValue(triplet[2]) == 15
    ensures Octet(triplet) == '\\' <==> HexValue(triplet[1]) == 5 && HexValue(triplet[2]) == 12
  {
    var n := 16 * HexValue(triplet[1]) + HexValue(triplet[2]);
    assert n as char == '.' <==> n == 46;
    assert n as char == '/' <==> n == 47;
    assert n as char == '\\' <==> n == 92;
  }

  lemma TripletCodes(triplet: string, c: char, pattern: string)
    requires |triplet| == 3 && Codes(c, pattern)
    ensures Encoded(triplet) && Octet(triplet) == c <==> Lower(triplet) == pattern
  {
    var l := Lower(triplet);
    assert l == [LowerChar(triplet[0]), LowerChar(triplet[1]), LowerChar(triplet[2])];
    assert pattern == [pattern[0], pattern[1], pattern[2]];
    if Encoded(triplet) {
      OctetDigits(triplet);
      HexDigits(triplet[1], triplet[2]);
    }
  }

  lemma TripletAt(s: string, i: nat)
    requires i + 3 <= |s|
    ensures Encoded(s[i..]) <==> Encoded(s[i..i + 3])
    ensures Encoded(s[i..]) ==> Octet(s[i..]) == Octet(s[i..i + 3])
    ensures Lower(s)[i..i + 3] == Lower(s[i..i + 3])
  {
    var t, u := s[i..], s[i..i + 3];
    assert t[0] == u[0] && t[1] == u[1] && t[2] == u[2];
  }

  /** The test on the lower-cased text finds every encoding of the octet, and nothing else. */
  lemma EncodingsAreFound(s: string, c: char, pattern: string)
    requires Codes(c, pattern)
    ensures Contains(Lower(s), pattern) <==> !NeverEncodes(s, c)
  {
    if Contains(Lower(s), pattern) {
      var i := ContainsWhere(Lower(s), pattern);
      TripletAt(s, i);
      TripletCodes(s[i..i + 3], c, pattern);
      assert Encoded(s[i..]) && Octet(s[i..]) == c;
    } else {
      forall i | 0 <= i <= |s| && Encoded(s[i..]) ensures Octet(s[i..]) != c {
        TripletAt(s, i);
        TripletCodes(s[i..i + 3], c, pattern);
        if Lower(s[i..i + 3]) == pattern {
          assert Lower(s)[i..][..3] == Lower(s)[i..i + 3];
          ContainsAt(Lower(s), pattern, i);
        }
      }
    }
  }

  predicate EmptyInside(segments: seq<string>) {
    exists k :: 0 < k < |segments| - 1 && segments[k] == ""
  }

  lemma FirstSegmentEmpty(s: string)
    ensures Split(s)[0] == "" && |Split(s)| > 1 <==> s != "" && s[0] == '/'
  {
  }

  /** Two slashes in a row are an empty segment inside the path. */
  lemma {:induction false} DoubleSlash(s: string)
    ensures Contains(s, "//") <==> EmptyInside(Split(s))
  {
    if s == "" {
    } else {
      var rest := Split(s[1..]);
      DoubleSlash(s[1..]);
      StartsWithHead(s, "//");
      if s[0] == '/' {
        FirstSegmentEmpty(s[1..]);
        assert StartsWith(s, "//") <==> s[1..] != "" && s[1..][0] == '/' by {
          StartsWithTail(s, "//");
          if s[1..] != "" && s[1..][0] == '/' { assert s[..2] == "//"; }
        }
        assert Split(s) == [""] + rest;
        if Contains(s, "//") {
          if StartsWith(s, "//") {
            assert Split(s)[1] == "";
          } else {
            var k :| 0 < k < |rest| - 1 && rest[k] == "";
            assert Split(s)[k + 1] == "";
          }
        }
        if EmptyInside(Split(s)) {
          var k :| 0 < k < |Split(s)| - 1 && Split(s)[k] == "";
          assert rest[k - 1] == "";
        }
      } else {
        assert forall k :: 0 < k < |rest| ==> Split(s)[k] == rest[k];
      }
    }
  }

  predicate DotInside(segments: seq<string>) {
    exists k :: 0 < k < |segments| && segments[k] == "."
  }

  lemma {:induction false} DottedSegment(s: string)
    ensures Contains(s, "/./") ==> DotInside(Split(s))
  {
    if s == "" {
    } else {
      var rest := Split(s[1..]);
      DottedSegment(s[1..]);
      StartsWithHead(s, "/./");
      if StartsWith(s, "/./") {
        StartsWithTail(s, "/./");
        assert "/./"[1..] == "./";
        DottedHead(s[1..]);
        assert Split(s)[1] == ".";
      } else if Contains(s, "/./") {
        var k :| 0 < k < |rest| && rest[k] == ".";
        assert Split(s)[if s[0] == '/' then k + 1 else k] == ".";
      }
    }
  }

  predicate OrdinarySegment(segment: string) {
    segment != "." && !Contains(segment, "..") && '\\' !in segment
  }

  /**
   Exactly which paths are accepted, segment by segment: absolute, no empty segment inside, every segment
   ordinary, and no dot, slash or backslash hidden behind a percent sign.
   */
  lemma AcceptedExactly(path: string)
    ensures Canonicalize(path).Some? <==>
              && StartsWith(path, "/")
              && !EmptyInside(Split(path))
              && (forall k :: 0 <= k < |Split(path)| ==> OrdinarySegment(Split(path)[k]))
              && NeverEncodes(path, '.') && NeverEncodes(path, '/') && NeverEncodes(path, '\\')
    ensures Canonicalize(path).Some? ==> Canonicalize(path) == Some(path)
  {
    EncodingsAreFound(path, '.', "%2e");
    EncodingsAreFound(path, '/', "%2f");
    EncodingsAreFound(path, '\\', "%5c");
    DoubleSlash(path);
    DottedSegment(path);
    ContainsInSegment(path, "..");
    ContainsInSegment(path, "\\");
    forall k | 0 <= k < |Split(path)| ensures Contains(Split(path)[k], "\\") <==> '\\' in Split(path)[k] {
      ContainsChar(Split(path)[k], '\\');
    }
    assert Contains("..", "..");
  }

  // ---------------------------------------------------------------- accepted paths are stable

  lemma {:induction false} SegmentNeverEncodes(s: string, c: char, k: nat)
    requires NeverEncodes(s, c) && k < |Split(s)|
    ensures NeverEncodes(Split(s)[k], c)
    decreases |s|
  {
    SplitAtSlash(s);
    var n := NextSlash(s);
    if k == 0 {
      forall i | 0 <= i <= n && Encoded(s[..n][i..]) ensures Octet(s[..n][i..]) != c {
        assert Encoded(s[i..]) && Octet(s[i..]) == Octet(s[..n][i..]);
      }
    } else {
      NeverEncodesRest(s, c, n + 1);
      SegmentNeverEncodes(s[n + 1..], c, k - 1);
    }
  }

  lemma DecodedSegmentIsOrdinary(segment: string)
    requires OrdinarySegment(segment) && NeverEncodes(segment, '.')
    ensures !IsDots(PctDecode(segment))
  {
    if IsDots(PctDecode(segment)) {
      DecodesToRun(segment, '.');
    }
  }

  /**
   Main result: an accepted path means the same before and after percent-decoding.  Decoding commutes with
   splitting into segments, the decoded path is a fixed point of dot-segment removal, and it has no backslash.
   */
  lemma AcceptedPathsAreStable(path: string)
    requires Canonicalize(path).Some?
    ensures Split(PctDecode(path)) == MapDecode(Split(path))
    ensures RemoveDotSegments(PctDecode(path)) == PctDecode(path)
    ensures RemoveDotSegments(path) == path
    ensures '\\' !in PctDecode(path)
  {
    AcceptedExactly(path);
    DecodingCommutesWithSplitting(path);
    assert path == "/" + path[1..];
    StartsWithHead(path, "/");
    NeverEncodesRest(path, '/', 1);
    DecodingCommutesWithSplitting(path[1..]);
    var decoded := PctDecode(path);
    assert decoded[0] == '/' && decoded[1..] == PctDecode(path[1..]);
    forall k | 0 <= k < |Split(path[1..])| ensures !IsDots(Split(path[1..])[k]) && !IsDots(Split(decoded[1..])[k]) {
      var segment := Split(path)[k + 1];
      assert segment == Split(path[1..])[k];
      assert Contains("..", "..");
      SegmentNeverEncodes(path, '.', k + 1);
      DecodedSegmentIsOrdinary(segment);
    }
    NoDotsNoChange(decoded, "");
    NoDotsNoChange(path, "");
    BackslashFree(path);
  }

  lemma BackslashFree(path: string)
    requires Canonicalize(path).Some?
    ensures '\\' !in PctDecode(path)
  {
    AcceptedExactly(path);
    ContainsChar(path, '\\');
    DecodedCharacter(path, '\\');
  }

  lemma NoDots(path: string)
    requires '.' !in path
    ensures !Contains(path, "..")
    ensures forall k :: 0 <= k < |Split(path)| ==> Split(path)[k] != "." && !Contains(Split(path)[k], "..")
  {
    forall k | 0 <= k < |Split(path)| ensures Split(path)[k] != "." && !Contains(Split(path)[k], "..") {
      SegmentCharacters(path, k);
      assert '.' !in Split(path)[k];
      if Contains(Split(path)[k], "..") { ContainsNeeds(Split(path)[k], "..", '.'); }
    }
    if Contains(path, "..") { ContainsNeeds(path, "..", '.'); }
  }

  /** A slash, then a dot encoded twice. */
  predicate TwiceEncodedDot(path: string) {
    && |path| == 6 && path[0] == '/'
    && path[1] == '%' && path[2] == '2' && path[3] == '5' && path[4] == '2' && path[5] == 'e'
  }

  lemma OnlyPercentIsEncoded(path: string, c: char)
    requires TwiceEncodedDot(path) && c != '%'
    ensures NeverEncodes(path, c)
  {
    forall i | 0 <= i <= |path| && Encoded(path[i..]) ensures Octet(path[i..]) != c {
      assert path[i] == path[i..][0] == '%' && i == 1;
      OctetOfPercent(path[i..]);
    }
  }

  lemma TwiceEncodedIsAccepted(path: string)
    requires TwiceEncodedDot(path)
    ensures Canonicalize(path).Some?
  {
    OnlyPercentIsEncoded(path, '.');
    OnlyPercentIsEncoded(path, '/');
    OnlyPercentIsEncoded(path, '\\');
    TwoPlainSegments(path);
    AcceptedExactly(path);
  }

  lemma TwoPlainSegments(path: string)
    requires TwiceEncodedDot(path)
    ensures StartsWith(path, "/") && !EmptyInside(Split(path))
    ensures forall k :: 0 <= k < |Split(path)| ==> OrdinarySegment(Split(path)[k])
  {
    var tail := path[1..];
    assert path == "" + "/" + tail;
    SplitJoined("", tail);
    SplitJoined(tail, "");
    assert Split(path) == ["", tail];
    NoDots(path);
  }

  lemma OctetOfPercent(s: string)
    requires Encoded(s) && s[1] == '2' && s[2] == '5'
    ensures Octet(s) == '%'
  {
    assert 37 as char == '%';
  }

  lemma DecodedOnce(path: string)
    requires TwiceEncodedDot(path)
    ensures PctDecode(path) == ['/', '%', '2', 'e']
  {
    var coded := path[1..];
    OctetOfPercent(coded);
    var rest := coded[3..];
    assert PctDecode(rest[2..]) == "" && PctDecode(rest[1..]) == ['e'] && PctDecode(rest) == ['2', 'e'];
    assert PctDecode(coded) == ['%'] + PctDecode(rest);
  }

  lemma DecodedTwice(once: string)
    requires once == ['/', '%', '2', 'e']
    ensures PctDecode(once) == ['/', '.']
  {
    var coded := once[1..];
    assert 46 as char == '.' && Octet(coded) == '.';
    assert PctDecode(coded[3..]) == "" && PctDecode(coded) == ['.'];
  }

  /** Stable under one decoding, not under two: an accepted path that gains a dot-segment when decoded twice. */
  lemma TwoDecodingsAreNotCovered(path: string)
    requires TwiceEncodedDot(path)
    ensures Canonicalize(path).Some?
    ensures var twice := PctDecode(PctDecode(path)); RemoveDotSegments(twice) != twice
  {
    TwiceEncodedIsAccepted(path);
    DecodedOnce(path);
    DecodedTwice(PctDecode(path));
    var twice := PctDecode(PctDecode(path));
    assert twice[1..] == ".";
    SplitJoined(".", "");
    assert Split(twice[1..])[0] == ".";
    FixedExactly(twice);
  }

  /** What decodes to one dot or two, in any spelling. */
  predicate CodesDots(piece: string) {
    var l := Lower(piece);
    l == "." || l == "%2e" || l == ".." || l == ".%2e" || l == "%2e." || l == "%2e%2e"
  }

  /** The text in front of `rest` decodes to a dot: one of the two spellings. */
  lemma DotInFront(s: string) returns (n: nat)
    requires s != "" && PctDecode(s)[0] == '.'
    ensures n <= |s| && (n == 1 || n == 3) && PctDecode(s)[1..] == PctDecode(s[n..])
    ensures n == 1 ==> Lower(s[..n]) == "."
    ensures n == 3 ==> Lower(s[..n]) == "%2e"
  {
    if Encoded(s) {
      n := 3;
      TripletAt(s, 0);
      assert s[0..] == s && s[0..3] == s[..3];
      TripletCodes(s[..3], '.', "%2e");
    } else {
      n := 1;
      assert s[..1] == ['.'] && Lower(s[..1])[0] == '.';
    }
  }

  lemma LowerSplits(s: string, n: nat)
    requires n <= |s|
    ensures Lower(s) == Lower(s[..n]) + Lower(s[n..])
  {
  }

  lemma NothingDecodesToNothing(s: string)
    ensures PctDecode(s) == "" <==> s == ""
  {
  }

  /** The spellings are exactly the texts that decode to a dot-segment. */
  lemma CodesDotsExactly(piece: string)
    ensures IsDots(PctDecode(piece)) <==> CodesDots(piece)
  {
    if IsDots(PctDecode(piece)) {
      DecodedDotsAreCoded(piece);
    }
    if CodesDots(piece) {
      CodedDotsDecode(piece);
    }
  }

  lemma DecodedDotsAreCoded(piece: string)
    requires IsDots(PctDecode(piece))
    ensures CodesDots(piece)
  {
    NothingDecodesToNothing(piece);
    var n := DotInFront(piece);
    var rest := piece[n..];
    LowerSplits(piece, n);
    NothingDecodesToNothing(rest);
    if rest == "" {
      assert Lower(rest) == "";
    } else {
      assert PctDecode(rest) == PctDecode(piece)[1..] == ".";
      var m := DotInFront(rest);
      LowerSplits(rest, m);
      NothingDecodesToNothing(rest[m..]);
      assert Lower(rest[m..]) == "";
    }
  }

  lemma PlainDotInFront(s: string)
    requires s != "" && s[0] == '.'
    ensures PctDecode(s) == "." + PctDecode(s[1..])
  {
  }

  lemma TripletInFront(s: string)
    requires |s| >= 3 && Lower(s[..3]) == "%2e"
    ensures PctDecode(s) == "." + PctDecode(s[3..])
  {
    TripletCodes(s[..3], '.', "%2e");
    EncodedPrefix(s[..3], s);
  }

  lemma CodedDotsDecode(piece: string)
    requires CodesDots(piece)
    ensures IsDots(PctDecode(piece))
  {
    var l := Lower(piece);
    var n := CodedDotInFront(piece);
    var rest := piece[n..];
    LowerSplits(piece, n);
    assert Lower(rest) == l[n..];
    if rest != "" {
      var m := CodedDotInFront(rest);
      LowerSplits(rest, m);
      assert |Lower(rest[m..])| == |rest[m..]| == 0;
      NothingDecodesToNothing(rest[m..]);
    }
  }

  /** One spelling of a dot in front of a rest. */
  lemma CodedDotInFront(s: string) returns (n: nat)
    requires s != "" && (Lower(s)[0] == '.' || (|s| >= 3 && Lower(s)[..3] == "%2e"))
    ensures n <= |s| && n == (if Lower(s)[0] == '.' then 1 else 3)
    ensures PctDecode(s) == "." + PctDecode(s[n..])
  {
    if Lower(s)[0] == '.' {
      n := 1;
      assert LowerChar(s[0]) == '.' && s[0] == '.';
      PlainDotInFront(s);
    } else {
      n := 3;
      LowerSplits(s, 3);
      TripletInFront(s);
    }
  }

  /** No piece of the text is a dot-segment in any spelling. */
  predicate NoCodedDots(s: string) {
    forall k :: 0 <= k < |Pieces(s)| ==> !CodesDots(Pieces(s)[k])
  }

  lemma DecodesDotFreeExactly(s: string)
    ensures DotFree(Split(PctDecode(s))) <==> NoCodedDots(s)
  {
    DecodedSegments(s);
    forall k | 0 <= k < |Pieces(s)| ensures IsDots(Split(PctDecode(s))[k]) <==> CodesDots(Pieces(s)[k]) {
      CodesDotsExactly(Pieces(s)[k]);
    }
  }

  lemma DecodedStaysAbsolute(s: string)
    requires s != "" && s[0] == '/'
    ensures PctDecode(s) != "" && PctDecode(s)[0] == '/' && PctDecode(s)[1..] == PctDecode(s[1..])
  {
  }

  /**
   Main result on a second decoding, for every accepted path.  Each of the three stabilities holds exactly
   if the text decoded once passes a test on its characters: no piece between slashes, plain or encoded,
   spells a dot-segment; no slash is encoded; no backslash is encoded.
   */
  lemma TwiceDecodedExactly(path: string)
    requires Canonicalize(path).Some?
    ensures var once := PctDecode(path);
            var twice := PctDecode(once);
            && once != "" && (RemoveDotSegments(twice) == twice <==> NoCodedDots(once[1..]))
            && (Split(twice) == MapDecode(Split(once)) <==> !Contains(Lower(once), "%2f"))
            && ('\\' !in twice <==> !Contains(Lower(once), "%5c"))
  {
    AcceptedExactly(path);
    StartsWithHead(path, "/");
    var once := PctDecode(path);
    var twice := PctDecode(once);
    DecodedStaysAbsolute(path);
    DecodedStaysAbsolute(once);
    FixedExactly(twice);
    DecodesDotFreeExactly(once[1..]);
    DecodingCommutesExactly(once);
    EncodingsAreFound(once, '/', "%2f");
    BackslashFree(path);
    DecodedCharacter(once, '\\');
    EncodingsAreFound(once, '\\', "%5c");
  }

  // ---------------------------------------------------------------- the route table

  const AGENT: string := "/api/v1/agent/"
  const ENROLL: string := AGENT + "enroll"
  const COMMANDS: string := AGENT + "commands/"
  const ARTIFACT: string := "artifact"

  /** `is_command_artifact_path`: the segments after the prefix are an identifier and `artifact`. */
  predicate IsCommandArtifactPath(protocol: Protocol, path: string) {
    StartsWith(path, COMMANDS) &&
    var parts := Split(path[|COMMANDS|..]);
    |parts| == 2 && parts[1] == ARTIFACT && protocol.isUuid(parts[0])
  }

  predicate IsFixedRoute(verb: Method, path: string) {
    || (verb == POST && path == ENROLL)
    || (verb == GET && path == AGENT + "status")
    || (verb == GET && path == AGENT + "pull")
    || (verb == POST && path == AGENT + "credentials/rotate")
    || (verb == POST && path == AGENT + "update-offer")
    || (verb == POST && path == AGENT + "results")
    || (verb == POST && path == AGENT + "heartbeat")
  }

  /** `is_allowed_agent_route`. */
  predicate IsAllowedAgentRoute(protocol: Protocol, verb: Method, path: string) {
    Canonicalize(path).Some? &&
    ( || IsFixedRoute(verb, path)
      || (verb == GET && protocol.isReleasePath(path))
      || ((verb == GET || verb == PUT) && IsCommandArtifactPath(protocol, path)))
  }

  predicate IsEnrollRoute(verb: Method, path: string) {
    verb == POST && path == ENROLL
  }

  /** `rate_limit_class`. */
  function RateLimitClass(protocol: Protocol, verb: Method, path: string): RateLimit.Class {
    match Canonicalize(path)
    case None => RateLimit.Unrecognized
    case Some(canonical) =>
      if !IsAllowedAgentRoute(protocol, verb, canonical) then RateLimit.Unrecognized
      else if IsEnrollRoute(verb, canonical) then RateLimit.Enroll
      else RateLimit.Allowed
  }

  datatype BodyCap = FileBudget | EnrollCap | DefaultCap

  /** Which branch of `max_body_bytes` applies. */
  function BodyCapOf(verb: Method, path: string): BodyCap {
    if verb == PUT && StartsWith(path, COMMANDS) && EndsWith(path, "/" + ARTIFACT) then FileBudget
    else if IsEnrollRoute(verb, path) then EnrollCap
    else DefaultCap
  }

  function MaxBodyBytes(protocol: Protocol, verb: Method, path: string): nat {
    match BodyCapOf(verb, path)
    case FileBudget => protocol.maxFileBytes
    case EnrollCap => 1024 * 1024
    case DefaultCap => 2 * 1024 * 1024
  }

  /** Text with two segments, the second one given, is the first segment, a slash and the second. */
  lemma TwoSegments(rest: string, last: string) returns (first: string)
    requires |Split(rest)| == 2 && Split(rest)[1] == last
    ensures first == Split(rest)[0] && '/' !in first && rest == first + "/" + last
  {
    SplitAtSlash(rest);
    SegmentsHaveNoSlash(rest, 0);
    var n := NextSlash(rest);
    var tail := rest[n + 1..];
    SplitAtSlash(tail);
    assert Split(rest)[1..] == Split(tail);
    assert tail == last;
    first := rest[..n];
    assert rest == rest[..n] + [rest[n]] + rest[n + 1..];
  }

  lemma TwoSegmentsAgain(prefix: string, first: string, last: string)
    requires '/' !in first && '/' !in last
    ensures var path := prefix + first + "/" + last;
            && StartsWith(path, prefix) && EndsWith(path, "/" + last) && Split(path[|prefix|..]) == [first, last]
  {
    var path := prefix + first + "/" + last;
    assert path == prefix + (first + "/" + last) == (prefix + first) + ("/" + last);
    assert path[|prefix|..] == first + "/" + last;
    SplitJoined(first, last);
    SplitJoined(last, "");
  }

  lemma CommandArtifactParts(protocol: Protocol, path: string) returns (id: string)
    requires IsCommandArtifactPath(protocol, path)
    ensures protocol.isUuid(id) && '/' !in id && path == COMMANDS + id + "/" + ARTIFACT
  {
    var rest := path[|COMMANDS|..];
    id := TwoSegments(rest, ARTIFACT);
    assert path == path[..|COMMANDS|] + rest;
    assert COMMANDS + (id + "/" + ARTIFACT) == COMMANDS + id + "/" + ARTIFACT;
  }

  /** The segment test, as a text: a prefix, one segment that parses as an identifier, a suffix. */
  lemma CommandArtifactExactly(protocol: Protocol, path: string)
    ensures IsCommandArtifactPath(protocol, path) <==>
              exists id :: protocol.isUuid(id) && '/' !in id && path == COMMANDS + id + "/" + ARTIFACT
  {
    if IsCommandArtifactPath(protocol, path) {
      var id := CommandArtifactParts(protocol, path);
    }
    forall id | protocol.isUuid(id) && '/' !in id && path == COMMANDS + id + "/" + ARTIFACT
      ensures IsCommandArtifactPath(protocol, path)
    {
      TwoSegmentsAgain(COMMANDS, id, ARTIFACT);
    }
  }

  /**
   For an allowed route the prefix and suffix test is the segment test: the file budget is exactly for PUT command
   artifacts.
   */
  lemma CapExactly(protocol: Protocol, verb: Method, path: string)
    requires IsAllowedAgentRoute(protocol, verb, path)
    ensures BodyCapOf(verb, path) == FileBudget <==> verb == PUT && IsCommandArtifactPath(protocol, path)
    ensures BodyCapOf(verb, path) == EnrollCap <==> verb == POST && path == ENROLL
    ensures MaxBodyBytes(protocol, verb, path)
         == if verb == PUT && IsCommandArtifactPath(protocol, path) then protocol.maxFileBytes
            else if verb == POST && path == ENROLL then 1048576
            else 2097152
  {
    if IsCommandArtifactPath(protocol, path) {
      var id := CommandArtifactParts(protocol, path);
      TwoSegmentsAgain(COMMANDS, id, ARTIFACT);
    }
  }

  /** A text with both the prefix and the suffix: they share the slash between them, or something stands between. */
  lemma BothEnds(path: string, prefix: string, last: string)
    requires prefix != "" && prefix[|prefix| - 1] == '/' && '/' !in last
    ensures StartsWith(path, prefix) && EndsWith(path, "/" + last) <==>
              path == prefix + last || exists mid :: path == prefix + mid + "/" + last
  {
    if path == prefix + last {
      assert path[|prefix| - 1..] == "/" + last;
    }
    forall mid | path == prefix + mid + "/" + last ensures StartsWith(path, prefix) && EndsWith(path, "/" + last) {
      assert path == prefix + (mid + "/" + last) == (prefix + mid) + ("/" + last);
    }
    if StartsWith(path, prefix) && EndsWith(path, "/" + last) {
      BothEndsApart(path, prefix, last);
    }
  }

  lemma BothEndsApart(path: string, prefix: string, last: string)
    requires prefix != "" && prefix[|prefix| - 1] == '/' && '/' !in last
    requires StartsWith(path, prefix) && EndsWith(path, "/" + last)
    ensures path == prefix + last || exists mid :: path == prefix + mid + "/" + last
  {
    var rest := path[|prefix|..];
    var cut := |path| - |last| - 1;
    assert path == prefix + rest && path[cut..] == "/" + last;
    if cut >= |prefix| {
      var mid := path[|prefix|..cut];
      assert path == path[..|prefix|] + path[|prefix|..cut] + path[cut..];
      assert prefix + mid + ("/" + last) == prefix + mid + "/" + last;
    } else if cut == |prefix| - 1 {
      assert rest == path[cut..][1..] == last;
    }
  }

  /** What stands between a prefix and a suffix is determined by the text. */
  lemma MiddleIsUnique(prefix: string, one: string, other: string, last: string)
    requires prefix + one + "/" + last == prefix + other + "/" + last
    ensures one == other
  {
    var path := prefix + one + "/" + last;
    assert path[|prefix|..|prefix| + |one|] == one && path[|prefix|..|prefix| + |other|] == other;
  }

  /** Exactly which paths get the file budget, on the allowlist or off it. */
  lemma FileBudgetExactly(verb: Method, path: string)
    ensures BodyCapOf(verb, path) == FileBudget <==>
              verb == PUT && (path == COMMANDS + ARTIFACT || exists mid :: path == COMMANDS + mid + "/" + ARTIFACT)
  {
    BothEnds(path, COMMANDS, ARTIFACT);
  }

  lemma NothingBetween(protocol: Protocol, path: string)
    requires path == COMMANDS + ARTIFACT
    ensures !IsCommandArtifactPath(protocol, path)
  {
    assert path[|COMMANDS|..] == ARTIFACT;
    SplitJoined(ARTIFACT, "");
  }

  /**
   Exactly where the prefix and suffix test and the segment test disagree: a PUT with nothing between prefix and
   suffix, or with something that has a slash or is no identifier.  None of these routes is on the allowlist.
   */
  lemma CapNeedsTheAllowlist(protocol: Protocol, verb: Method, path: string)
    ensures BodyCapOf(verb, path) == FileBudget && !IsCommandArtifactPath(protocol, path) <==>
              verb == PUT &&
              (path == COMMANDS + ARTIFACT
               || exists mid :: path == COMMANDS + mid + "/" + ARTIFACT && ('/' in mid || !protocol.isUuid(mid)))
    ensures verb == PUT && IsCommandArtifactPath(protocol, path) ==> BodyCapOf(verb, path) == FileBudget
    ensures BodyCapOf(verb, path) == FileBudget && !IsCommandArtifactPath(protocol, path) ==>
              !IsAllowedAgentRoute(protocol, verb, path)
  {
    FileBudgetExactly(verb, path);
    CommandArtifactExactly(protocol, path);
    if path == COMMANDS + ARTIFACT {
      NothingBetween(protocol, path);
    }
    forall mid | path == COMMANDS + mid + "/" + ARTIFACT
      ensures IsCommandArtifactPath(protocol, path) <==> '/' !in mid && protocol.isUuid(mid)
    {
      if IsCommandArtifactPath(protocol, path) {
        var id := CommandArtifactParts(protocol, path);
        MiddleIsUnique(COMMANDS, mid, id, ARTIFACT);
      }
    }
  }

  lemma Longer(path: string, short: string, more: string)
    requires StartsWith(path, short + more)
    ensures StartsWith(path, short)
  {
    assert path[..|short|] == path[..|short + more|][..|short|];
  }

  lemma Extended(short: string, more: string)
    ensures StartsWith(short + more, short)
  {
  }

  /** Every allowed route is a canonical path under the agent prefix, if every release path lies there. */
  lemma AllowedLiesUnderAgent(protocol: Protocol, verb: Method, path: string)
    requires forall p :: protocol.isReleasePath(p) ==> StartsWith(p, AGENT)
    requires IsAllowedAgentRoute(protocol, verb, path)
    ensures Canonicalize(path) == Some(path) && StartsWith(path, AGENT)
  {
    AcceptedExactly(path);
    if StartsWith(path, COMMANDS) {
      Longer(path, AGENT, "commands/");
    } else if IsFixedRoute(verb, path) {
      FixedLiesUnderAgent(verb, path);
    }
  }

  lemma FixedLiesUnderAgent(verb: Method, path: string)
    requires IsFixedRoute(verb, path)
    ensures StartsWith(path, AGENT)
  {
    Extended(AGENT, path[|AGENT|..]);
  }

  // ---------------------------------------------------------------- classes

  /** Text without a percent sign, a dot, a backslash or two slashes in a row needs no check. */
  lemma PlainPathIsCanonical(path: string)
    requires StartsWith(path, "/") && '%' !in path && '.' !in path && '\\' !in path
    requires forall i :: 0 <= i < |path| - 1 ==> !(path[i] == '/' && path[i + 1] == '/')
    ensures Canonicalize(path) == Some(path)
  {
    NoDoubleSlash(path);
    DoubleSlash(path);
    forall k | 0 <= k < |Split(path)| ensures OrdinarySegment(Split(path)[k]) {
      SegmentCharacters(path, k);
      if Contains(Split(path)[k], "..") {
        ContainsNeeds(Split(path)[k], "..", '.');
      }
    }
    AcceptedExactly(path);
  }

  lemma {:induction false} NoDoubleSlash(s: string)
    requires forall i :: 0 <= i < |s| - 1 ==> !(s[i] == '/' && s[i + 1] == '/')
    ensures !Contains(s, "//")
  {
    if s == "" {
    } else {
      StartsWithHead(s, "//");
      StartsWithTail(s, "//");
      StartsWithHead(s[1..], "/");
      assert "//"[1..] == "/";
      forall i | 0 <= i < |s[1..]| - 1 ensures !(s[1..][i] == '/' && s[1..][i + 1] == '/') {
        assert s[1..][i] == s[i + 1] && s[1..][i + 1] == s[i + 2];
      }
      NoDoubleSlash(s[1..]);
    }
  }

  lemma {:induction false} SegmentCharacters(s: string, k: nat)
    requires k < |Split(s)|
    ensures forall c :: c in Split(s)[k] ==> c in s
    decreases |s|
  {
    SplitAtSlash(s);
    if k == 0 {
    } else {
      SegmentCharacters(s[NextSlash(s) + 1..], k - 1);
    }
  }

  /** The routes that are one method and one path each, by what follows the prefix. */
  function RouteNames(verb: Method): set<string> {
    match verb
    case POST => {"enroll", "credentials/rotate", "update-offer", "results", "heartbeat"}
    case GET => {"status", "pull"}
    case _ => {}
  }

  lemma GetRoutesExactly(path: string)
    ensures IsFixedRoute(GET, path) <==> exists name :: name in RouteNames(GET) && path == AGENT + name
  {
    assert "status" in RouteNames(GET) && "pull" in RouteNames(GET);
  }

  lemma PostRoutesExactly(path: string)
    ensures IsFixedRoute(POST, path) <==> exists name :: name in RouteNames(POST) && path == AGENT + name
  {
    assert "enroll" in RouteNames(POST) && "credentials/rotate" in RouteNames(POST);
    assert "update-offer" in RouteNames(POST) && "results" in RouteNames(POST) && "heartbeat" in RouteNames(POST);
  }

  predicate IsNameChar(c: char) {
    'a' <= c <= 'z' || '0' <= c <= '9' || c == '-'
  }

  /** Letters, digits, hyphens and single slashes need no check. */
  predicate PlainText(path: string) {
    && path != "" && path[0] == '/'
    && (forall i :: 0 <= i < |path| ==> IsNameChar(path[i]) || path[i] == '/')
    && (forall i :: 0 <= i < |path| - 1 ==> !(path[i] == '/' && path[i + 1] == '/'))
  }

  lemma PlainTextIsCanonical(path: string)
    requires PlainText(path)
    ensures Canonicalize(path) == Some(path)
  {
    assert path[..1] == "/";
    PlainPathIsCanonical(path);
  }

  /** Letters, digits and hyphens. */
  predicate IsName(name: string) {
    name != "" && forall i :: 0 <= i < |name| ==> IsNameChar(name[i])
  }

  lemma JoinIsPlain(prefix: string, name: string, suffix: string)
    requires PlainText(prefix) && IsName(name) && (suffix == "" || PlainText(suffix))
    ensures PlainText(prefix + name + suffix)
  {
  }

  lemma NamedRouteIsPlain(name: string)
    requires IsName(name)
    ensures PlainText(AGENT + name)
  {
    JoinIsPlain(AGENT, name, "");
    assert AGENT + name + "" == AGENT + name;
  }

  lemma RouteNamesArePlain(verb: Method, name: string)
    requires name in RouteNames(verb)
    ensures IsName(name) || name == "credentials/rotate"
  {
  }

  lemma RotateIsPlain()
    ensures PlainText(AGENT + "credentials/rotate")
  {
    JoinIsPlain(AGENT, "credentials", "/rotate");
    assert "credentials" + "/rotate" == "credentials/rotate";
    assert AGENT + ("credentials" + "/rotate") == AGENT + "credentials" + "/rotate";
  }

  lemma NamedRoutesArePlain(verb: Method, name: string)
    requires name in RouteNames(verb)
    ensures PlainText(AGENT + name)
  {
    RouteNamesArePlain(verb, name);
    if IsName(name) {
      NamedRouteIsPlain(name);
    } else {
      RotateIsPlain();
    }
  }

  /** The fixed routes are exactly the prefix and one of the names, and none is stopped by the path checks. */
  lemma FixedRoutesExactly(verb: Method, path: string)
    ensures IsFixedRoute(verb, path) <==> exists name :: name in RouteNames(verb) && path == AGENT + name
    ensures IsFixedRoute(verb, path) ==> Canonicalize(path).Some?
  {
    if verb == GET {
      GetRoutesExactly(path);
    } else if verb == POST {
      PostRoutesExactly(path);
    }
    if name :| name in RouteNames(verb) && path == AGENT + name {
      NamedRoutesArePlain(verb, name);
      PlainTextIsCanonical(path);
    }
  }

  /** Exactly which requests are on the allowlist. */
  lemma AllowedExactly(protocol: Protocol, verb: Method, path: string)
    ensures IsAllowedAgentRoute(protocol, verb, path) <==>
              || (exists name :: name in RouteNames(verb) && path == AGENT + name)
              || (verb == GET && protocol.isReleasePath(path) && Canonicalize(path).Some?)
              || ((verb == GET || verb == PUT) && IsCommandArtifactPath(protocol, path) && Canonicalize(path).Some?)
  {
    FixedRoutesExactly(verb, path);
  }

  /** Every identifier of lower-case letters, digits and hyphens has its command artifact, to read and to write. */
  lemma CommandArtifactsAreAllowed(protocol: Protocol, verb: Method, id: string)
    requires protocol.isUuid(id) && IsName(id)
    requires verb == GET || verb == PUT
    ensures IsAllowedAgentRoute(protocol, verb, COMMANDS + id + "/" + ARTIFACT)
  {
    var path := COMMANDS + id + "/" + ARTIFACT;
    CommandArtifactExactly(protocol, path);
    assert '/' !in id;
    JoinIsPlain(COMMANDS, id, "/artifact");
    assert id + "/" + ARTIFACT == id + "/artifact" && COMMANDS + id + "/" + ARTIFACT == COMMANDS + id + "/artifact";
    PlainTextIsCanonical(path);
  }

  lemma EnrollIsCanonical()
    ensures Canonicalize(ENROLL) == Some(ENROLL)
  {
    assert ENROLL == "/api/v1/agent/enroll";
    PlainPathIsCanonical(ENROLL);
  }

  /**
   The class says what the route is: unrecognised off the allowlist, enroll for the enroll route, allowed otherwise.
   */
  lemma ClassExactly(protocol: Protocol, verb: Method, path: string)
    ensures RateLimitClass(protocol, verb, path) == RateLimit.Unrecognized <==>
              !IsAllowedAgentRoute(protocol, verb, path)
    ensures RateLimitClass(protocol, verb, path) == RateLimit.Enroll <==> IsEnrollRoute(verb, path)
  {
    AcceptedExactly(path);
    EnrollIsCanonical();
  }
}
