/**
  The three PHP string primitives the module registry relies on: `trim` with
  its default character list, `explode` on a literal delimiter, and the
  `empty()` test applied to a string.
 */
module PhpString {

  /** The characters `trim` strips by default: space, tab, newline, carriage
      return, NUL and vertical tab. */
  const Whitespace: set<char> := {' ', '\t', '\n', '\r', '\0', '\U{000B}'}

  /** `empty($s)` for a string: true for "" and for "0". */
  predicate PhpEmpty(s: string) {
    s == "" || s == "0"
  }

  /** Neither end of `s` is a `trim` character. */
  predicate IsTrimmed(s: string) {
    |s| == 0 || (s[0] !in Whitespace && s[|s| - 1] !in Whitespace)
  }

  /** `ltrim($s)`: the suffix of `s` left after dropping its leading whitespace. */
  function TrimLeft(s: string): (r: string)
    ensures |r| <= |s|
    ensures r == [] || r[0] !in Whitespace
  {
    if |s| > 0 && s[0] in Whitespace then TrimLeft(s[1..]) else s
  }

  /** `ltrim` returns a suffix of its argument. */
  lemma {:induction false} TrimLeftSuffix(s: string)
    ensures TrimLeft(s) == s[|s| - |TrimLeft(s)|..]
  {
    if |s| > 0 && s[0] in Whitespace {
      TrimLeftSuffix(s[1..]);
      assert s[1..][|s| - 1 - |TrimLeft(s)|..] == s[|s| - |TrimLeft(s)|..];
    }
  }

  /** `ltrim` drops whitespace only. */
  lemma {:induction false} TrimLeftDropsWhitespace(s: string)
    ensures forall i :: 0 <= i < |s| - |TrimLeft(s)| ==> s[i] in Whitespace
  {
    if |s| > 0 && s[0] in Whitespace {
      TrimLeftDropsWhitespace(s[1..]);
      assert forall i :: 1 <= i < |s| ==> s[i] == s[1..][i - 1];
    }
  }

  /** `rtrim($s)`: the prefix of `s` left after dropping its trailing whitespace. */
  function TrimRight(s: string): (r: string)
    ensures |r| <= |s|
    ensures r == [] || r[|r| - 1] !in Whitespace
  {
    if |s| > 0 && s[|s| - 1] in Whitespace then TrimRight(s[..|s| - 1]) else s
  }

  /** `rtrim` returns a prefix of its argument. */
  lemma {:induction false} TrimRightPrefix(s: string)
    ensures TrimRight(s) == s[..|TrimRight(s)|]
  {
    if |s| > 0 && s[|s| - 1] in Whitespace {
      TrimRightPrefix(s[..|s| - 1]);
      assert s[..|s| - 1][..|TrimRight(s)|] == s[..|TrimRight(s)|];
    }
  }

  /** `rtrim` drops whitespace only. */
  lemma {:induction false} TrimRightDropsWhitespace(s: string)
    ensures forall i :: |TrimRight(s)| <= i < |s| ==> s[i] in Whitespace
  {
    if |s| > 0 && s[|s| - 1] in Whitespace {
      TrimRightDropsWhitespace(s[..|s| - 1]);
      assert forall i :: 0 <= i < |s| - 1 ==> s[i] == s[..|s| - 1][i];
    }
  }

  /** `trim($s)`. */
  function Trim(s: string): (r: string)
    ensures IsTrimmed(r)
    ensures |r| <= |s|
  {
    var l := TrimLeft(s);
    var r := TrimRight(l);
    TrimRightPrefix(l);
    assert r == [] || r[0] == l[0];
    r
  }

  /** `trim` leaves a string that is already trimmed alone, so trimming twice
      is trimming once. */
  lemma TrimIdempotent(s: string)
    requires IsTrimmed(s)
    ensures Trim(s) == s
  {
  }

  lemma TrimTwice(s: string)
    ensures Trim(Trim(s)) == Trim(s)
  {
    TrimIdempotent(Trim(s));
  }

  /** `trim` returns a contiguous slice of its argument, and everything it cut
      off on either side is whitespace. */
  lemma TrimIsSlice(s: string) returns (i: nat)
    ensures i + |Trim(s)| <= |s| && Trim(s) == s[i..i + |Trim(s)|]
    ensures forall k :: 0 <= k < i ==> s[k] in Whitespace
    ensures forall k :: i + |Trim(s)| <= k < |s| ==> s[k] in Whitespace
  {
    var l := TrimLeft(s);
    i := |s| - |l|;
    TrimLeftDropsWhitespace(s);
    TrimRightDropsWhitespace(l);
    TrimLeftSuffix(s);
    TrimRightPrefix(l);
    assert Trim(s) == TrimRight(l);
    assert l == s[i..];
  }

  lemma {:induction false} TrimLeftPadded(pre: string, rest: string)
    requires forall i :: 0 <= i < |pre| ==> pre[i] in Whitespace
    requires rest == [] || rest[0] !in Whitespace
    ensures TrimLeft(pre + rest) == rest
  {
    if pre == [] {
      assert pre + rest == rest;
    } else {
      assert (pre + rest)[1..] == pre[1..] + rest;
      TrimLeftPadded(pre[1..], rest);
    }
  }

  lemma {:induction false} TrimRightPadded(rest: string, post: string)
    requires forall i :: 0 <= i < |post| ==> post[i] in Whitespace
    requires rest == [] || rest[|rest| - 1] !in Whitespace
    ensures TrimRight(rest + post) == rest
  {
    if post == [] {
      assert rest + post == rest;
    } else {
      var s := rest + post;
      assert s[..|s| - 1] == rest + post[..|post| - 1];
      TrimRightPadded(rest, post[..|post| - 1]);
    }
  }

  /** `trim` removes exactly the whitespace padding around a trimmed core. */
  lemma TrimPadded(pre: string, core: string, post: string)
    requires forall i :: 0 <= i < |pre| ==> pre[i] in Whitespace
    requires forall i :: 0 <= i < |post| ==> post[i] in Whitespace
    requires IsTrimmed(core) && core != []
    ensures Trim(pre + core + post) == core
  {
    assert pre + core + post == pre + (core + post);
    TrimLeftPadded(pre, core + post);
    TrimRightPadded(core, post);
  }

  /** `d` occurs in `s` at offset `k`. */
  predicate OccursAt(s: string, d: string, k: int) {
    0 <= k && k + |d| <= |s| && s[k..k + |d|] == d
  }

  /** `strpos($s, $d) !== false`. */
  predicate Contains(s: string, d: string) {
    exists k :: 0 <= k <= |s| && OccursAt(s, d, k)
  }

  /** `explode($d, $s)`: the pieces between non-overlapping occurrences of
      `d`, scanned from the left. There is always at least one piece. */
  function Explode(s: string, d: string): (parts: seq<string>)
    requires |d| > 0
    ensures |parts| >= 1
    decreases |s|
  {
    if |s| < |d| then [s]
    else if s[..|d|] == d then [""] + Explode(s[|d|..], d)
    else
      var rest := Explode(s[1..], d);
      [[s[0]] + rest[0]] + rest[1..]
  }

  /** Gluing pieces back together with the delimiter, as `implode($d, $parts)`
      would. The registry never does this; it is the inverse of `explode`
      that the round-trip proofs use. */
  function Join(parts: seq<string>, d: string): string
    requires |parts| >= 1
    decreases |parts|
  {
    if |parts| == 1 then parts[0] else parts[0] + d + Join(parts[1..], d)
  }

  lemma {:induction false} JoinStartsWithFirst(parts: seq<string>, d: string)
    requires |parts| >= 1
    ensures |parts[0]| <= |Join(parts, d)| && Join(parts, d)[..|parts[0]|] == parts[0]
  {
    if |parts| > 1 {
      assert Join(parts, d) == parts[0] + (d + Join(parts[1..], d));
    }
  }

  /** Joining the pieces of `explode` with the same delimiter gives back
      the original string. */
  lemma {:induction false} ExplodeJoin(s: string, d: string)
    requires |d| > 0
    ensures Join(Explode(s, d), d) == s
    decreases |s|
  {
    if |s| < |d| {
      assert Explode(s, d) == [s];
    } else if s[..|d|] == d {
      var tail := s[|d|..];
      var rest := Explode(tail, d);
      assert Explode(s, d) == [""] + rest;
      ExplodeJoin(tail, d);
      JoinConsEmpty(rest, d);
      assert s == d + tail;
    } else {
      var rest := Explode(s[1..], d);
      assert Explode(s, d) == [[s[0]] + rest[0]] + rest[1..];
      ExplodeJoin(s[1..], d);
      JoinCons(s[0], rest, d);
      assert s == [s[0]] + s[1..];
    }
  }

  /** An empty first piece puts the delimiter in front of the rest. */
  lemma JoinConsEmpty(rest: seq<string>, d: string)
    requires |rest| >= 1
    ensures Join([""] + rest, d) == d + Join(rest, d)
  {
    var parts := [""] + rest;
    assert parts[0] == "" && parts[1..] == rest;
    assert Join(parts, d) == "" + d + Join(rest, d);
    assert "" + d == d;
  }

  /** Putting a character in front of the first piece puts it in front of
      the joined string. */
  lemma JoinCons(c: char, rest: seq<string>, d: string)
    requires |rest| >= 1
    ensures Join([[c] + rest[0]] + rest[1..], d) == [c] + Join(rest, d)
  {
    var parts := [[c] + rest[0]] + rest[1..];
    assert parts[0] == [c] + rest[0];
    assert parts[1..] == rest[1..];
    if |rest| > 1 {
      assert Join(parts, d) == ([c] + rest[0]) + d + Join(rest[1..], d);
      assert Join(rest, d) == rest[0] + d + Join(rest[1..], d);
    }
  }

  lemma OccursAtShift(s: string, d: string, k: int)
    requires 0 <= k && OccursAt(s, d, k + 1)
    ensures OccursAt(s[1..], d, k)
  {
    assert s[1..][k..k + |d|] == s[k + 1..k + 1 + |d|];
  }

  /** No piece returned by `explode` contains the delimiter. */
  lemma {:induction false} ExplodePiecesFree(s: string, d: string)
    requires |d| > 0
    ensures forall k :: 0 <= k < |Explode(s, d)| ==> !Contains(Explode(s, d)[k], d)
    decreases |s|
  {
    var parts := Explode(s, d);
    if |s| < |d| {
    } else if s[..|d|] == d {
      ExplodePiecesFree(s[|d|..], d);
      assert parts[1..] == Explode(s[|d|..], d);
      forall k | 0 <= k < |parts| ensures !Contains(parts[k], d) {
        if k > 0 {
          assert parts[k] == Explode(s[|d|..], d)[k - 1];
        }
      }
    } else {
      ExplodePiecesFree(s[1..], d);
      var rest := Explode(s[1..], d);
      ExplodeJoin(s[1..], d);
      JoinStartsWithFirst(rest, d);
      var p := [s[0]] + rest[0];
      assert parts[0] == p;
      forall k | 0 <= k < |parts| ensures !Contains(parts[k], d) {
        if k == 0 {
          forall j | 0 <= j <= |p| ensures !OccursAt(p, d, j) {
            if j == 0 {
              if |d| <= |p| {
                assert p == s[..|p|];
                assert s[..|d|] == p[..|d|];
              }
            } else {
              assert p[1..] == rest[0];
              if OccursAt(p, d, j) {
                OccursAtShift(p, d, j - 1);
              }
            }
          }
        } else {
          assert parts[k] == rest[k];
        }
      }
    }
  }

  /** A slice of a string free of `d` is free of `d`. */
  lemma SliceFree(s: string, d: string, i: nat, j: nat)
    requires i <= j <= |s| && !Contains(s, d)
    ensures !Contains(s[i..j], d)
  {
    forall k | 0 <= k <= j - i ensures !OccursAt(s[i..j], d, k) {
      if k + |d| <= j - i {
        var t := s[i..j];
        var u, w := t[k..k + |d|], s[i + k..i + k + |d|];
        forall m | 0 <= m < |d| ensures u[m] == w[m] {
          assert t[k + m] == s[i + k + m];
        }
        assert u == w;
        assert !OccursAt(s, d, i + k);
      }
    }
  }

  /** Trimming a string free of `d` leaves it free of `d`. */
  lemma TrimFree(s: string, d: string)
    requires !Contains(s, d)
    ensures !Contains(Trim(s), d)
  {
    var i := TrimIsSlice(s);
    SliceFree(s, d, i, i + |Trim(s)|);
  }

  /** When `d` does not start anywhere inside `a`, `explode` cuts
      `a + d + b` first right after `a`. */
  lemma {:induction false} ExplodeAtFirst(a: string, b: string, d: string)
    requires |d| > 0
    requires forall k :: 0 <= k < |a| ==> !OccursAt(a + d + b, d, k)
    ensures Explode(a + d + b, d) == [a] + Explode(b, d)
    decreases |a|
  {
    var s := a + d + b;
    if |a| == 0 {
      assert s == d + b;
      assert s[..|d|] == d && s[|d|..] == b;
    } else {
      assert !OccursAt(s, d, 0);
      assert s[..|d|] != d;
      assert s[1..] == a[1..] + d + b;
      forall k | 0 <= k < |a[1..]| ensures !OccursAt(a[1..] + d + b, d, k) {
        if OccursAt(s[1..], d, k) {
          assert s[1..][k..k + |d|] == s[k + 1..k + 1 + |d|];
          assert OccursAt(s, d, k + 1);
        }
      }
      ExplodeAtFirst(a[1..], b, d);
      assert [s[0]] + a[1..] == a;
    }
  }

  /** A string shorter than the delimiter is its own single piece. */
  lemma ExplodeShort(s: string, d: string)
    requires 0 < |d| && |s| < |d|
    ensures Explode(s, d) == [s]
  {
  }

  /** No offset below `n` can hold `d` when the first character of `d` does
      not appear there. */
  lemma NoMatchByFirstChar(s: string, d: string, n: nat)
    requires |d| > 0
    requires forall k :: 0 <= k < n && k < |s| ==> s[k] != d[0]
    ensures forall k :: 0 <= k < n ==> !OccursAt(s, d, k)
  {
    forall k | 0 <= k < n ensures !OccursAt(s, d, k) {
      if k + |d| <= |s| {
        assert s[k..k + |d|][0] == s[k];
      }
    }
  }
}
