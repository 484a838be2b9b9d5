/** Small generic helpers shared by the blog model: an Option type, Python's
    slicing prefix, order-preserving filtering, insertion into a sequence kept
    in descending key order, splitting a string on a separator, and decimal
    digit strings. */
module Util {

  datatype Option<+T> = None | Some(value: T)

  /** Python's `s[:n]` for a non-negative `n`. */
  function Prefix<T>(s: seq<T>, n: nat): (r: seq<T>)
    ensures |r| == if |s| < n then |s| else n
    ensures r <= s
    ensures |s| <= n ==> r == s
  {
    if |s| <= n then s else s[..n]
  }

  /** The elements of `xs` satisfying `keep`, in their original order. */
  function Filter<T(!new)>(xs: seq<T>, keep: T -> bool): (r: seq<T>)
    ensures |r| <= |xs|
    ensures forall x :: x in r <==> x in xs && keep(x)
  {
    if |xs| == 0 then []
    else if keep(xs[0]) then [xs[0]] + Filter(xs[1..], keep)
    else Filter(xs[1..], keep)
  }

  /** Filtering keeps every kept element as often as it occurs, and drops
      the others entirely. */
  lemma {:induction false} FilterCount<T(!new)>(xs: seq<T>, keep: T -> bool)
    ensures forall x :: multiset(Filter(xs, keep))[x] == if keep(x) then multiset(xs)[x] else 0
  {
    if |xs| > 0 {
      FilterCount(xs[1..], keep);
      assert xs == [xs[0]] + xs[1..];
      assert multiset(xs) == multiset{xs[0]} + multiset(xs[1..]);
    }
  }

  /** `f` applied to every element, in order. */
  function Map<A, B>(xs: seq<A>, f: A -> B): (r: seq<B>)
    ensures |r| == |xs|
    ensures forall i :: 0 <= i < |xs| ==> r[i] == f(xs[i])
  {
    if |xs| == 0 then [] else [f(xs[0])] + Map(xs[1..], f)
  }

  /** Filtering keeps everything when everything passes. */
  lemma {:induction false} FilterAll<T(!new)>(xs: seq<T>, keep: T -> bool)
    requires forall x :: x in xs ==> keep(x)
    ensures Filter(xs, keep) == xs
  {
    if |xs| > 0 {
      FilterAll(xs[1..], keep);
      assert [xs[0]] + xs[1..] == xs;
    }
  }

  /** Filtering keeps nothing when nothing passes. */
  lemma {:induction false} FilterNone<T(!new)>(xs: seq<T>, keep: T -> bool)
    requires forall x :: x in xs ==> !keep(x)
    ensures Filter(xs, keep) == []
  {
    if |xs| > 0 {
      assert xs[0] in xs;
      FilterNone(xs[1..], keep);
    }
  }

  /** Filtering distributes over appending one element. */
  lemma {:induction false} FilterSnoc<T(!new)>(xs: seq<T>, x: T, keep: T -> bool)
    ensures Filter(xs + [x], keep) == Filter(xs, keep) + (if keep(x) then [x] else [])
  {
    if |xs| == 0 {
      assert xs + [x] == [x];
      assert [x][1..] == [];
    } else {
      FilterSnoc(xs[1..], x, keep);
      var ys := xs + [x];
      assert ys[0] == xs[0] && ys[1..] == xs[1..] + [x];
      if keep(xs[0]) {
        assert Filter(ys, keep) == [xs[0]] + Filter(ys[1..], keep);
        assert Filter(xs, keep) == [xs[0]] + Filter(xs[1..], keep);
      } else {
        assert Filter(ys, keep) == Filter(ys[1..], keep);
        assert Filter(xs, keep) == Filter(xs[1..], keep);
      }
    }
  }

  /** `xs` is listed with non-increasing `key`. */
  ghost predicate Descending<T>(xs: seq<T>, key: T -> int)
  {
    forall i, j :: 0 <= i < j < |xs| ==> key(xs[i]) >= key(xs[j])
  }

  /** Filtering keeps the relative order, hence keeps a descending listing. */
  lemma {:induction false} FilterDescending<T(!new)>(xs: seq<T>, keep: T -> bool, key: T -> int)
    requires Descending(xs, key)
    ensures Descending(Filter(xs, keep), key)
  {
    if |xs| > 0 {
      FilterDescending(xs[1..], keep, key);
      var rest := Filter(xs[1..], keep);
      if keep(xs[0]) {
        var r := [xs[0]] + rest;
        forall i, j | 0 <= i < j < |r| ensures key(r[i]) >= key(r[j]) {
          if i == 0 {
            assert r[j] in rest;
            assert r[j] in xs[1..];
          }
        }
      }
    }
  }

  /** Whatever the listing, filtering never breaks a descending order. */
  lemma FilterKeepsOrder<T(!new)>(xs: seq<T>, keep: T -> bool, key: T -> int)
    ensures Descending(xs, key) ==> Descending(Filter(xs, keep), key)
  {
    if Descending(xs, key) {
      FilterDescending(xs, keep, key);
    }
  }

  /** Where `x` goes in a descending listing: in front of the first element
      whose key is not greater than its own, so that it precedes the
      elements that tie with it. */
  function InsertPos<T>(x: T, xs: seq<T>, key: T -> int): (k: nat)
    ensures k <= |xs|
    ensures forall i :: 0 <= i < k ==> key(xs[i]) > key(x)
    ensures k < |xs| ==> key(xs[k]) <= key(x)
  {
    if |xs| == 0 || key(xs[0]) <= key(x) then 0
    else 1 + InsertPos(x, xs[1..], key)
  }

  /** `x` inserted into `xs` at its place in descending key order. */
  function InsertDesc<T>(x: T, xs: seq<T>, key: T -> int): (r: seq<T>)
    ensures |r| == |xs| + 1
    ensures r == xs[..InsertPos(x, xs, key)] + [x] + xs[InsertPos(x, xs, key)..]
    ensures Descending(xs, key) ==> Descending(r, key)
  {
    var k := InsertPos(x, xs, key);
    var r := xs[..k] + [x] + xs[k..];
    assert Descending(xs, key) ==> Descending(r, key) by {
      if Descending(xs, key) {
        forall i, j | 0 <= i < j < |r| ensures key(r[i]) >= key(r[j]) {
          if j < k {
            assert r[i] == xs[i] && r[j] == xs[j];
          } else if j == k {
            assert r[i] == xs[i];
          } else if i == k {
            assert r[j] == xs[j - 1];
          } else if i < k {
            assert r[i] == xs[i] && r[j] == xs[j - 1];
          } else {
            assert r[i] == xs[i - 1] && r[j] == xs[j - 1];
          }
        }
      }
    }
    r
  }

  /** The inserted element and every old one are in the result, and nothing
      else; an element at least as new as all others goes first. */
  lemma InsertDescContents<T>(x: T, xs: seq<T>, key: T -> int)
    ensures forall y :: y in InsertDesc(x, xs, key) <==> y == x || y in xs
    ensures (forall i :: 0 <= i < |xs| ==> key(xs[i]) <= key(x)) ==> InsertDesc(x, xs, key) == [x] + xs
  {
    var k := InsertPos(x, xs, key);
    var r := InsertDesc(x, xs, key);
    assert xs == xs[..k] + xs[k..];
    forall y ensures y in r <==> y == x || y in xs {
      calc {
        y in r;
        y in xs[..k] || y == x || y in xs[k..];
        y == x || y in xs;
      }
    }
    if forall i :: 0 <= i < |xs| ==> key(xs[i]) <= key(x) {
      assert k == 0;
      assert r == [x] + xs[0..];
    }
  }

  /** Python's `s.split(sep)`: the maximal separator-free pieces of `s`. */
  function Split(s: string, sep: char): (r: seq<string>)
    ensures |r| >= 1
    ensures forall i :: 0 <= i < |r| ==> sep !in r[i]
  {
    if |s| == 0 then [""]
    else
      var rest := Split(s[1..], sep);
      if s[0] == sep then [""] + rest
      else [[s[0]] + rest[0]] + rest[1..]
  }

  /** The inverse of Split: the pieces glued back with the separator. */
  function Join(parts: seq<string>, sep: char): string
  {
    if |parts| == 0 then ""
    else if |parts| == 1 then parts[0]
    else parts[0] + [sep] + Join(parts[1..], sep)
  }

  /** Splitting loses nothing: gluing the pieces back yields the input. */
  lemma {:induction false} JoinSplit(s: string, sep: char)
    ensures Join(Split(s, sep), sep) == s
  {
    if |s| > 0 {
      JoinSplit(s[1..], sep);
      var rest := Split(s[1..], sep);
      if s[0] == sep {
        assert Split(s, sep) == [""] + rest;
        assert s == [sep] + s[1..];
      } else {
        var r := Split(s, sep);
        assert r == [[s[0]] + rest[0]] + rest[1..];
        if |rest| == 1 {
          assert Join(r, sep) == [s[0]] + rest[0];
        } else {
          assert r[1..] == rest[1..];
          assert Join(r, sep) == [s[0]] + rest[0] + [sep] + Join(rest[1..], sep);
        }
        assert s == [s[0]] + s[1..];
      }
    }
  }

  /** Text after the last separator is the last piece: when `s` does not end
      with the separator, that piece is not empty. */
  lemma {:induction false} SplitLastNonEmpty(s: string, sep: char)
    requires |s| > 0 && s[|s| - 1] != sep
    ensures var r := Split(s, sep); r[|r| - 1] != ""
  {
    var r := Split(s, sep);
    if |s| == 1 {
      assert Split(s[1..], sep) == [""];
      assert r == [[s[0]] + ""];
      assert |r[0]| == 1;
    } else {
      var tail := Split(s[1..], sep);
      SplitLastNonEmpty(s[1..], sep);
      if s[0] == sep {
        assert r == [""] + tail;
        assert r[|r| - 1] == tail[|tail| - 1];
      } else if |tail| > 1 {
        assert r == [[s[0]] + tail[0]] + tail[1..];
        assert r[|r| - 1] == tail[|tail| - 1];
      } else {
        assert r == [[s[0]] + tail[0]];
        assert |r[0]| > 0;
      }
    }
  }

  /** A separator-free head is split off as one piece. */
  lemma {:induction false} SplitCons(a: string, sep: char, rest: string)
    requires sep !in a
    ensures Split(a + [sep] + rest, sep) == [a] + Split(rest, sep)
  {
    if |a| == 0 {
      assert a + [sep] + rest == [sep] + rest;
    } else {
      var s := a + [sep] + rest;
      SplitCons(a[1..], sep, rest);
      assert s[1..] == a[1..] + [sep] + rest;
      var tail := Split(s[1..], sep);
      assert tail[0] == a[1..] && tail[1..] == Split(rest, sep);
      assert s[0] == a[0] && a[0] != sep;
      assert [a[0]] + a[1..] == a;
    }
  }

  /** A separator-free string is a single piece. */
  lemma {:induction false} SplitNoSep(a: string, sep: char)
    requires sep !in a
    ensures Split(a, sep) == [a]
  {
    if |a| > 0 {
      SplitNoSep(a[1..], sep);
      assert [a[0]] + a[1..] == a;
    }
  }

  /** The first piece of a split: the text before the first separator, or the
      whole string when it holds none. */
  lemma {:induction false} FirstPiece(s: string, sep: char)
    ensures Split(s, sep)[0] <= s
    ensures sep in s ==> s[|Split(s, sep)[0]|] == sep
    ensures sep !in s ==> Split(s, sep)[0] == s
  {
    if |s| > 0 {
      FirstPiece(s[1..], sep);
      var rest := Split(s[1..], sep);
      if s[0] != sep {
        var piece := [s[0]] + rest[0];
        assert Split(s, sep)[0] == piece;
        assert s == [s[0]] + s[1..];
        if sep in s {
          assert sep in s[1..];
          assert s[1..][|rest[0]|] == sep;
        }
      }
    }
  }

  /** The characters Python's `str.strip()` removes from the ends (ASCII only). */
  predicate IsSpace(c: char)
  {
    c == ' ' || c == '\t' || c == '\n' || c == '\r' || c == '\U{B}' || c == '\U{C}'
  }

  predicate Blank(s: string)
  {
    forall i :: 0 <= i < |s| ==> IsSpace(s[i])
  }

  /** `s` without its leading whitespace. */
  function StripLeft(s: string): (r: string)
    ensures |r| <= |s| && r == s[|s| - |r|..]
    ensures Blank(s[..|s| - |r|])
    ensures |r| > 0 ==> !IsSpace(r[0])
  {
    if |s| > 0 && IsSpace(s[0]) then StripLeft(s[1..]) else s
  }

  /** `s` without its trailing whitespace. */
  function StripRight(s: string): (r: string)
    ensures |r| <= |s| && r == s[..|r|]
    ensures Blank(s[|r|..])
    ensures |r| > 0 ==> !IsSpace(r[|r| - 1])
  {
    if |s| > 0 && IsSpace(s[|s| - 1]) then StripRight(s[..|s| - 1]) else s
  }

  /** Python's `s.strip()`: the text between leading and trailing whitespace;
      empty exactly for a blank string. */
  function Strip(s: string): (r: string)
    ensures |r| <= |s|
    ensures |r| == 0 <==> Blank(s)
    ensures |r| > 0 ==> !IsSpace(r[0]) && !IsSpace(r[|r| - 1])
  {
    var left := StripLeft(s);
    var r := StripRight(left);
    assert s[..|s| - 0] == s && left[0..] == left;
    assert |r| == 0 ==> Blank(s) by {
      if |r| == 0 {
        assert s == s[..|s| - |left|] + left;
      }
    }
    assert |r| > 0 ==> r[0] == left[0];
    r
  }

  predicate IsDigit(c: char) { '0' <= c <= '9' }

  /** A non-empty decimal numeral, as matched by `[0-9]+`. */
  predicate IsDigits(s: string)
  {
    |s| > 0 && forall i :: 0 <= i < |s| ==> IsDigit(s[i])
  }

  /** The value of a decimal numeral (Python's `int(s)`). */
  function DigitsValue(s: string): nat
    requires forall i :: 0 <= i < |s| ==> IsDigit(s[i])
  {
    if |s| == 0 then 0
    else 10 * DigitsValue(s[..|s| - 1]) + DigitValue(s[|s| - 1])
  }

  function DigitValue(c: char): nat
    requires IsDigit(c)
  {
    c as int - '0' as int
  }

  /** The decimal numeral of `n` (Python's `str(n)`). */
  function NatToDigits(n: nat): (r: string)
    ensures IsDigits(r)
  {
    if n < 10 then [('0' as int + n) as char]
    else NatToDigits(n / 10) + [('0' as int + n % 10) as char]
  }

  /** Reading back the numeral of `n` yields `n`. */
  lemma {:induction false} DigitsRoundTrip(n: nat)
    ensures DigitsValue(NatToDigits(n)) == n
  {
    var d := NatToDigits(n);
    if n >= 10 {
      DigitsRoundTrip(n / 10);
      assert d[..|d| - 1] == NatToDigits(n / 10);
    }
  }
}
