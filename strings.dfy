/**
 * The few string operations of Go's standard library that the router relies on:
 * strings.Trim with the cutset "/", strings.Split and strings.Join on "/",
 * ASCII lower-casing, decimal formatting of a position (fmt's %d), and the two
 * character classes that the `:string` and `:number` placeholders look for.
 * Strings are sequences of characters; the router only ever inspects ASCII.
 */
module Strings {

  /** Every character of `s` at positions lo..hi-1 is a slash. */
  predicate SlashesIn(s: string, lo: nat, hi: nat)
    requires lo <= hi <= |s|
  {
    forall k :: lo <= k < hi ==> s[k] == '/'
  }

  /** The first position at or after `k` that does not hold a slash (or |s|). */
  function SkipSlashes(s: string, k: nat): (n: nat)
    requires k <= |s|
    ensures k <= n <= |s| && SlashesIn(s, k, n)
    ensures n == |s| || s[n] != '/'
    decreases |s| - k
  {
    if k < |s| && s[k] == '/' then SkipSlashes(s, k + 1) else k
  }

  /** The end of `s[lo..k]` once its trailing slashes are dropped. */
  function BackSlashes(s: string, lo: nat, k: nat): (n: nat)
    requires lo <= k <= |s|
    ensures lo <= n <= k && SlashesIn(s, n, k)
    ensures n == lo || s[n - 1] != '/'
    decreases k
  {
    if k > lo && s[k - 1] == '/' then BackSlashes(s, lo, k - 1) else k
  }

  /** `r` is the slice of `s` starting at `i`, and `s` holds only slashes around it. */
  ghost predicate TrimmedAt(s: string, r: string, i: nat)
  {
    i + |r| <= |s| && s[i..i + |r|] == r && SlashesIn(s, 0, i) && SlashesIn(s, i + |r|, |s|)
  }

  /** strings.Trim(s, "/"): the middle slice of `s` left once the slashes on both ends
      are gone; it neither starts nor ends with '/'. */
  function Trim(s: string): (r: string)
    ensures r == [] || (r[0] != '/' && r[|r| - 1] != '/')
    ensures exists i :: TrimmedAt(s, r, i)
  {
    var i := SkipSlashes(s, 0);
    var j := BackSlashes(s, i, |s|);
    assert TrimmedAt(s, s[i..j], i);
    s[i..j]
  }

  /** strings.Join(segs, "/"). */
  function Join(segs: seq<string>): string
  {
    if |segs| == 0 then ""
    else if |segs| == 1 then segs[0]
    else segs[0] + "/" + Join(segs[1..])
  }

  /** strings.Split(s, "/"): the pieces between slashes, in order; never empty, and
      joining them back with "/" restores `s`. */
  function Split(s: string): (r: seq<string>)
    ensures |r| >= 1
    ensures forall i :: 0 <= i < |r| ==> '/' !in r[i]
    ensures Join(r) == s
    decreases |s|
  {
    if s == [] then [""]
    else
      var rest := Split(s[1..]);
      if s[0] == '/' then
        assert Join([""] + rest) == "" + "/" + Join(rest);
        [""] + rest
      else
        var head := [s[0]] + rest[0];
        assert Join([head] + rest[1..]) == [s[0]] + Join(rest) by {
          if |rest| > 1 {
            assert ([head] + rest[1..])[1..] == rest[1..];
          }
        }
        [head] + rest[1..]
  }

  /** With more than one piece, an empty first piece makes the joined text start
      with '/', and an empty last piece makes it end with '/'. */
  lemma {:induction false} JoinEmptyEnds(segs: seq<string>)
    requires |segs| > 1
    ensures var j := Join(segs); |j| > 0
    ensures segs[0] == "" ==> Join(segs)[0] == '/'
    ensures segs[|segs| - 1] == "" ==> Join(segs)[|Join(segs)| - 1] == '/'
    decreases |segs|
  {
    if |segs| > 2 {
      JoinEmptyEnds(segs[1..]);
    }
  }

  /** Splitting a piece free of '/' followed by more text. */
  lemma {:induction false} SplitPrefix(x: string, z: string)
    requires '/' !in x
    ensures Split(x + z) == [x + Split(z)[0]] + Split(z)[1..]
    decreases |x|
  {
    var sz := Split(z);
    if x == [] {
      assert x + z == z && x + sz[0] == sz[0];
      assert sz == [sz[0]] + sz[1..];
    } else {
      assert (x + z)[0] == x[0] && (x + z)[1..] == x[1..] + z;
      SplitPrefix(x[1..], z);
      var rest := Split(x[1..] + z);
      assert rest[0] == x[1..] + sz[0] && rest[1..] == sz[1..];
      assert [x[0]] + rest[0] == x + sz[0];
    }
  }

  /** A leading slash contributes one empty first piece. */
  lemma SplitSlash(t: string)
    ensures Split("/" + t) == [""] + Split(t)
  {
    assert ("/" + t)[0] == '/' && ("/" + t)[1..] == t;
  }

  /** Joining a head and a non-empty rest. */
  lemma JoinCons(head: string, rest: seq<string>)
    requires |rest| >= 1
    ensures Join([head] + rest) == head + "/" + Join(rest)
  {
    var segs := [head] + rest;
    assert segs[0] == head && segs[1..] == rest;
  }

  /** The step of SplitJoin: a head free of '/' in front of a rest that splits
      back to itself. */
  lemma SplitJoinStep(head: string, rest: seq<string>)
    requires '/' !in head && |rest| >= 1 && Split(Join(rest)) == rest
    ensures Split(Join([head] + rest)) == [head] + rest
  {
    var tail := Join(rest);
    var slashed := "/" + tail;
    var whole := head + slashed;
    SplitSlash(tail);
    var ss := Split(slashed);
    assert ss == [""] + rest;
    assert ss[0] == "" && ss[1..] == rest;
    SplitPrefix(head, slashed);
    assert Split(whole) == [head + ss[0]] + ss[1..];
    assert head + ss[0] == head;
    JoinCons(head, rest);
    assert Join([head] + rest) == whole;
  }

  /** Splitting undoes joining, for pieces free of '/'. */
  lemma {:induction false} SplitJoin(segs: seq<string>)
    requires |segs| >= 1
    requires forall i :: 0 <= i < |segs| ==> '/' !in segs[i]
    ensures Split(Join(segs)) == segs
    decreases |segs|
  {
    if |segs| == 1 {
      SplitPrefix(segs[0], "");
      assert segs[0] + "" == segs[0];
    } else {
      SplitJoin(segs[1..]);
      SplitJoinStep(segs[0], segs[1..]);
      assert segs == [segs[0]] + segs[1..];
    }
  }

  /** Appending a slash adds one empty piece at the end. */
  lemma {:induction false} SplitTrailingSlash(x: string)
    ensures Split(x + "/") == Split(x) + [""]
    decreases |x|
  {
    if x == [] {
      assert Split("/") == [""] + Split("");
    } else {
      assert (x + "/")[1..] == x[1..] + "/";
      SplitTrailingSlash(x[1..]);
    }
  }

  predicate IsAsciiLetter(c: char) { ('a' <= c <= 'z') || ('A' <= c <= 'Z') }

  predicate IsAsciiDigit(c: char) { '0' <= c <= '9' }

  /** What the unanchored regular expression `([a-zA-Z]{1,})` finds: some ASCII letter. */
  predicate HasLetter(s: string) { exists i | 0 <= i < |s| :: IsAsciiLetter(s[i]) }

  /** What the unanchored regular expression `([0-9]{1,})` finds: some ASCII digit. */
  predicate HasDigit(s: string) { exists i | 0 <= i < |s| :: IsAsciiDigit(s[i]) }

  function LowerChar(c: char): char
  {
    if 'A' <= c <= 'Z' then (c as int - 'A' as int + 'a' as int) as char else c
  }

  /** strings.ToLower restricted to ASCII: upper-case letters become lower-case,
      every other character is kept, position by position. */
  function ToLower(s: string): (r: string)
    ensures |r| == |s|
    ensures forall i :: 0 <= i < |s| ==> r[i] == LowerChar(s[i])
    ensures forall i :: 0 <= i < |r| ==> !('A' <= r[i] <= 'Z')
  {
    seq(|s|, i requires 0 <= i < |s| => LowerChar(s[i]))
  }

  function DigitChar(d: nat): char
    requires d < 10
  {
    "0123456789"[d]
  }

  /** fmt's %d for a non-negative integer: its decimal digits, most significant first. */
  function Decimal(n: nat): (r: string)
    ensures |r| >= 1
    ensures n >= 10 ==> |r| >= 2
    ensures forall i :: 0 <= i < |r| ==> IsAsciiDigit(r[i])
    decreases n
  {
    if n < 10 then [DigitChar(n)] else Decimal(n / 10) + [DigitChar(n % 10)]
  }

  /** Different numbers print differently. */
  lemma {:induction false} DecimalInjective(a: nat, b: nat)
    requires Decimal(a) == Decimal(b)
    ensures a == b
    decreases a
  {
    var da, db := Decimal(a), Decimal(b);
    if a < 10 && b < 10 {
      assert DigitChar(a) == da[0] == db[0] == DigitChar(b);
    } else if a >= 10 && b >= 10 {
      assert DigitChar(a % 10) == da[|da| - 1] == db[|db| - 1] == DigitChar(b % 10);
      assert a % 10 == b % 10;
      assert Decimal(a / 10) == da[..|da| - 1] == db[..|db| - 1] == Decimal(b / 10);
      DecimalInjective(a / 10, b / 10);
    }
  }
}
