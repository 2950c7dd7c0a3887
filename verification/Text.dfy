/** Character classes and the trimming of strings. */
module Text {

  predicate IsHexDigit(c: char) {
    '0' <= c <= '9' || 'a' <= c <= 'f' || 'A' <= c <= 'F'
  }

  /** `char::is_whitespace`. */
  predicate IsWhitespace(c: char) {
    var n := c as int;
    9 <= n <= 13 || n == 32 || n == 0x85 || n == 0xA0 || n == 0x1680 || 0x2000 <= n <= 0x200A
    || n == 0x2028 || n == 0x2029 || n == 0x202F || n == 0x205F || n == 0x3000
  }

  function TrimStart(s: string, drop: char -> bool): string {
    if s != [] && drop(s[0]) then TrimStart(s[1..], drop) else s
  }

  function TrimEnd(s: string, drop: char -> bool): string {
    if s != [] && drop(s[|s| - 1]) then TrimEnd(s[..|s| - 1], drop) else s
  }

  function Trim(s: string, drop: char -> bool): string {
    TrimEnd(TrimStart(s, drop), drop)
  }

  lemma TrimStartOne(c: char, rest: string, drop: char -> bool)
    requires drop(c)
    ensures TrimStart([c] + rest, drop) == TrimStart(rest, drop)
  {
    assert ([c] + rest)[1..] == rest;
  }

  lemma TrimEndOne(rest: string, c: char, drop: char -> bool)
    requires drop(c)
    ensures TrimEnd(rest + [c], drop) == TrimEnd(rest, drop)
  {
    assert (rest + [c])[..|rest|] == rest;
  }

  lemma {:induction false} TrimStartAll(before: string, s: string, drop: char -> bool)
    requires (forall c <- before :: drop(c)) && s != [] && !drop(s[0])
    ensures TrimStart(before + s, drop) == s
  {
    if before == [] {
      assert before + s == s;
    } else {
      assert before + s == [before[0]] + (before[1..] + s);
      assert before[0] in before;
      TrimStartOne(before[0], before[1..] + s, drop);
      TrimStartAll(before[1..], s, drop);
    }
  }

  lemma {:induction false} TrimEndAll(s: string, after: string, drop: char -> bool)
    requires (forall c <- after :: drop(c)) && s != [] && !drop(s[|s| - 1])
    ensures TrimEnd(s + after, drop) == s
  {
    if after == [] {
      assert s + after == s;
    } else {
      var n := |after| - 1;
      assert s + after == (s + after[..n]) + [after[n]];
      assert after[n] in after;
      TrimEndOne(s + after[..n], after[n], drop);
      TrimEndAll(s, after[..n], drop);
    }
  }

  /** Everything dropped around a text that starts and ends with something kept. */
  lemma TrimAround(before: string, s: string, after: string, drop: char -> bool)
    requires (forall c <- before :: drop(c)) && (forall c <- after :: drop(c))
    requires s != [] && !drop(s[0]) && !drop(s[|s| - 1])
    ensures Trim(before + s + after, drop) == s
  {
    assert before + s + after == before + (s + after);
    assert (s + after)[0] == s[0];
    TrimStartAll(before, s + after, drop);
    TrimEndAll(s, after, drop);
  }

  lemma {:induction false} TrimEverything(s: string, drop: char -> bool)
    requires forall c <- s :: drop(c)
    ensures Trim(s, drop) == []
  {
    if s == [] {
    } else {
      assert s == [s[0]] + s[1..] && s[0] in s;
      TrimStartOne(s[0], s[1..], drop);
      TrimEverything(s[1..], drop);
    }
  }
}
