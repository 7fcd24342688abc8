/**
 * The Python `str` operations the timing parser relies on: `isspace`,
 * `strip`, `split` on one separator, `startswith`, `endswith`, the substring
 * test `in`, and `replace` with an empty replacement.
 */
module PyStr {

  /** The code points for which Python's `str.isspace` holds. */
  predicate IsSpace(c: char) {
    || '\t' <= c <= '\r'
    || '\U{1C}' <= c <= ' '
    || c == '\U{85}' || c == '\U{A0}' || c == '\U{1680}'
    || '\U{2000}' <= c <= '\U{200A}'
    || c == '\U{2028}' || c == '\U{2029}' || c == '\U{202F}'
    || c == '\U{205F}' || c == '\U{3000}'
  }

  /** Every character of `s` is whitespace (`s.strip() == ""`). */
  predicate Blank(s: string) {
    forall i :: 0 <= i < |s| ==> IsSpace(s[i])
  }

  /** Neither end of `s` is whitespace: `s` is its own `strip()`. */
  predicate Trimmed(s: string) {
    s == [] || (!IsSpace(s[0]) && !IsSpace(s[|s| - 1]))
  }

  /** The index of the first non-whitespace character at or after `i`, or `|s|`. */
  function SkipSpace(s: string, i: nat): (r: nat)
    requires i <= |s|
    ensures i <= r <= |s|
    ensures forall k :: i <= k < r ==> IsSpace(s[k])
    ensures r < |s| ==> !IsSpace(s[r])
    decreases |s| - i
  {
    if i < |s| && IsSpace(s[i]) then SkipSpace(s, i + 1) else i
  }

  /**
   * Scanning back from `j` but not below `lo`: the end of the last
   * non-whitespace character, or `lo`.
   */
  function SkipSpaceBack(s: string, lo: nat, j: nat): (r: nat)
    requires lo <= j <= |s|
    ensures lo <= r <= j
    ensures forall k :: r <= k < j ==> IsSpace(s[k])
    ensures r > lo ==> !IsSpace(s[r - 1])
    decreases j - lo
  {
    if j > lo && IsSpace(s[j - 1]) then SkipSpaceBack(s, lo, j - 1) else j
  }

  /**
   * `s.strip()`: the slice of `s` between its leading and its trailing
   * whitespace. The result starts and ends with non-whitespace, sits in `s`
   * between two all-whitespace margins, and is empty exactly when `s` is all
   * whitespace.
   */
  function Strip(s: string): (r: string)
    ensures Trimmed(r)
    ensures exists lo :: StrippedAt(s, r, lo)
    ensures r == [] <==> Blank(s)
  {
    var lo := SkipSpace(s, 0);
    var hi := SkipSpaceBack(s, lo, |s|);
    assert StrippedAt(s, s[lo..hi], lo);
    assert lo < hi ==> s[lo..hi][0] == s[lo] && s[lo..hi][hi - lo - 1] == s[hi - 1];
    assert lo == hi ==> Blank(s);
    s[lo..hi]
  }

  /** `r` is the slice of `s` starting at `lo` with only whitespace around it. */
  predicate StrippedAt(s: string, r: string, lo: int) {
    && 0 <= lo && lo + |r| <= |s| && r == s[lo..lo + |r|]
    && (forall i :: 0 <= i < lo ==> IsSpace(s[i]))
    && (forall i :: lo + |r| <= i < |s| ==> IsSpace(s[i]))
  }

  /** Two blank texts make a blank text. */
  lemma BlankConcat(a: string, b: string)
    requires Blank(a) && Blank(b)
    ensures Blank(a + b)
  {
  }

  /** `strip` is determined by its margins: blank + trimmed + blank strips to the middle. */
  lemma StripUnique(a: string, t: string, b: string)
    requires Blank(a) && Blank(b) && Trimmed(t)
    ensures Strip(a + t + b) == t
  {
    var s := a + t + b;
    if t == [] {
      BlankConcat(a, t);
      BlankConcat(a + t, b);
    } else {
      var lo := SkipSpace(s, 0);
      assert forall k :: 0 <= k < |a| ==> s[k] == a[k];
      assert s[|a|] == t[0];
      assert lo == |a|;
      var hi := SkipSpaceBack(s, lo, |s|);
      assert forall k :: 0 <= k < |b| ==> s[|a| + |t| + k] == b[k];
      assert s[|a| + |t| - 1] == t[|t| - 1];
      assert hi == |a| + |t|;
      assert s[lo..hi] == t;
    }
  }

  /** `s.startswith(p)` */
  predicate StartsWith(s: string, p: string) {
    |p| <= |s| && s[..|p|] == p
  }

  /** `s.endswith(p)` */
  predicate EndsWith(s: string, p: string) {
    |p| <= |s| && s[|s| - |p|..] == p
  }

  /** Python's `p in s`, as a scan over the starting positions. */
  predicate Contains(s: string, p: string) {
    StartsWith(s, p) || (|s| > 0 && Contains(s[1..], p))
  }

  /** `p` occurs in `s` starting at index `i`. */
  predicate OccursAt(s: string, p: string, i: int) {
    0 <= i && i + |p| <= |s| && s[i..i + |p|] == p
  }

  /** `p in s` holds exactly when `p` occurs somewhere in `s`. */
  lemma {:induction false} ContainsIff(s: string, p: string)
    ensures Contains(s, p) <==> exists i :: OccursAt(s, p, i)
  {
    if StartsWith(s, p) {
      assert OccursAt(s, p, 0);
    } else if |s| > 0 {
      ContainsIff(s[1..], p);
      if Contains(s[1..], p) {
        var i :| OccursAt(s[1..], p, i);
        assert s[1..][i..i + |p|] == s[i + 1..i + 1 + |p|];
        assert OccursAt(s, p, i + 1);
      } else {
        forall i | OccursAt(s, p, i) ensures false {
          assert i != 0;
          assert s[1..][i - 1..i - 1 + |p|] == s[i..i + |p|];
          assert OccursAt(s[1..], p, i - 1);
        }
      }
    } else {
      forall i | OccursAt(s, p, i) ensures false {
      }
    }
  }

  /**
   * `s.replace(p, "")` for a non-empty `p`: one left-to-right pass that
   * deletes every non-overlapping occurrence of `p`. The result is `s`
   * itself exactly when `p` does not occur in `s`.
   */
  function RemoveAll(s: string, p: string): (r: string)
    requires |p| > 0
    ensures |r| <= |s|
    ensures |r| == |s| <==> !Contains(s, p)
    ensures !Contains(s, p) ==> r == s
  {
    if |s| < |p| then
      assert !StartsWith(s, p);
      assert !Contains(s, p) by { NoRoom(s, p); }
      s
    else if s[..|p|] == p then RemoveAll(s[|p|..], p)
    else [s[0]] + RemoveAll(s[1..], p)
  }

  /** A pattern longer than the text does not occur in it. */
  lemma {:induction false} NoRoom(s: string, p: string)
    requires |s| < |p|
    ensures !Contains(s, p)
  {
    if |s| > 0 {
      NoRoom(s[1..], p);
    }
  }

  /** A text in which the first character of `p` never occurs does not contain `p`. */
  lemma {:induction false} AbsentHead(s: string, p: string)
    requires |p| > 0 && forall i :: 0 <= i < |s| ==> s[i] != p[0]
    ensures !Contains(s, p)
  {
    if |s| > 0 {
      assert forall i :: 0 <= i < |s| - 1 ==> s[1..][i] == s[i + 1];
      AbsentHead(s[1..], p);
    }
  }

  /**
   * A text that does not start with `p`, and holds the first character of
   * `p` at most at its start, does not contain `p`.
   */
  lemma OnlyAtStart(s: string, p: string)
    requires |p| > 0 && !StartsWith(s, p)
    requires forall i :: 0 < i < |s| ==> s[i] != p[0]
    ensures !Contains(s, p)
  {
  }

  /** A leading occurrence of `p` is deleted and the rest is processed as before. */
  lemma RemoveAllLeading(p: string, t: string)
    requires |p| > 0
    ensures RemoveAll(p + t, p) == RemoveAll(t, p)
  {
  }

  /**
   * What `replace(p, "")` does when `p` occurs: the text before the first
   * occurrence is kept, that occurrence is deleted, and the rest is
   * processed in the same way.
   */
  lemma RemoveAllFirst(s: string, p: string, i: nat)
    requires |p| > 0 && OccursAt(s, p, i)
    requires forall j :: 0 <= j < i ==> !OccursAt(s, p, j)
    ensures RemoveAll(s, p) == s[..i] + RemoveAll(s[i + |p|..], p)
  {
    var a, b, c := s[..i], s[i..], s[i + |p|..];
    assert forall j :: 0 <= j < |a| ==> !OccursAt(a + b, p, j) by {
      assert a + b == s;
    }
    calc {
      RemoveAll(s, p);
      { assert s == a + b; }
      RemoveAll(a + b, p);
      { RemoveAllKeeps(a, b, p); }
      a + RemoveAll(b, p);
      { assert b == p + c; RemoveAllLeading(p, c); }
      a + RemoveAll(c, p);
    }
  }

  /** Text in which no occurrence of `p` starts is kept as it is. */
  lemma {:induction false} RemoveAllKeeps(a: string, b: string, p: string)
    requires |p| > 0
    requires forall j :: 0 <= j < |a| ==> !OccursAt(a + b, p, j)
    ensures RemoveAll(a + b, p) == a + RemoveAll(b, p)
  {
    if a == [] {
      assert a + b == b;
    } else {
      var a' := a[1..];
      var r := RemoveAll(b, p);
      assert RemoveAll(a + b, p) == [a[0]] + RemoveAll(a' + b, p) by {
        RemoveAllHead(a, b, p);
      }
      assert forall j :: 0 <= j < |a'| ==> !OccursAt(a' + b, p, j) by {
        NoOccurrenceTail(a, b, p);
      }
      RemoveAllKeeps(a', b, p);
      assert [a[0]] + (a' + r) == a + r by {
        assert a == [a[0]] + a';
      }
    }
  }

  /** Without an occurrence at the start, the first character is kept. */
  lemma RemoveAllHead(a: string, b: string, p: string)
    requires |p| > 0 && |a| > 0 && !OccursAt(a + b, p, 0)
    ensures RemoveAll(a + b, p) == [a[0]] + RemoveAll(a[1..] + b, p)
  {
    var s := a + b;
    assert s[1..] == a[1..] + b;
    if |s| >= |p| {
      assert s[..|p|] != p;
    } else {
      NoRoom(a[1..] + b, p);
    }
  }

  /** The occurrences in `a[1..] + b` are those in `a + b`, one place to the left. */
  lemma NoOccurrenceTail(a: string, b: string, p: string)
    requires |a| > 0
    requires forall j :: 0 <= j < |a| ==> !OccursAt(a + b, p, j)
    ensures forall j :: 0 <= j < |a| - 1 ==> !OccursAt(a[1..] + b, p, j)
  {
    var s, t := a + b, a[1..] + b;
    forall j | 0 <= j < |a| - 1 ensures !OccursAt(t, p, j) {
      assert !OccursAt(s, p, j + 1);
      if j + |p| <= |t| {
        assert t[j..j + |p|] == s[j + 1..j + 1 + |p|];
      }
    }
  }

  /** `replace` is one pass, not a fixpoint: deleting can create a new occurrence. */
  lemma RemoveAllSinglePass()
    ensures RemoveAll("aabb", "ab") == "ab"
    ensures Contains(RemoveAll("aabb", "ab"), "ab")
  {
  }

  /** The number of times the character `c` occurs in `s`. */
  function Count(s: string, c: char): nat {
    multiset(s)[c]
  }

  /** `sep.join(pieces)` for a one-character separator. */
  function Join(pieces: seq<string>, sep: char): string
    requires |pieces| > 0
  {
    if |pieces| == 1 then pieces[0] else pieces[0] + [sep] + Join(pieces[1..], sep)
  }

  /** The index of the first `c` at or after `i`, or `|s|` when there is none. */
  function FindChar(s: string, c: char, i: nat): (r: nat)
    requires i <= |s|
    ensures i <= r <= |s|
    ensures c !in s[i..r]
    ensures r < |s| ==> s[r] == c
    decreases |s| - i
  {
    if i == |s| || s[i] == c then i
    else
      var r := FindChar(s, c, i + 1);
      assert s[i..r] == [s[i]] + s[i + 1..r];
      r
  }

  /** The pieces of `s[i..]` between occurrences of `sep`, found left to right. */
  function SplitFrom(s: string, sep: char, i: nat): (r: seq<string>)
    requires i <= |s|
    ensures SplitsInto(s[i..], sep, r)
    decreases |s| - i
  {
    var j := FindChar(s, sep, i);
    if j == |s| then
      assert s[i..] == s[i..j];
      SplitLast(s[i..], sep);
      [s[i..]]
    else
      var rest := SplitFrom(s, sep, j + 1);
      SliceAround(s, i, j);
      SplitStep(s[i..j], sep, s[j + 1..], rest);
      [s[i..j]] + rest
  }

  /** The text from `i` is the part before `j`, the character at `j`, and the rest. */
  lemma SliceAround(s: string, i: nat, j: nat)
    requires i <= j < |s|
    ensures s[i..] == s[i..j] + [s[j]] + s[j + 1..]
  {
  }

  /** `r` is a split of `s` at `sep`: as many pieces as separators plus one, none holding a separator, joining back to `s`. */
  predicate SplitsInto(s: string, sep: char, r: seq<string>) {
    && |r| == Count(s, sep) + 1
    && (forall k :: 0 <= k < |r| ==> sep !in r[k])
    && Join(r, sep) == s
  }

  /** A text without the separator is split into itself alone. */
  lemma SplitLast(piece: string, sep: char)
    requires sep !in piece
    ensures SplitsInto(piece, sep, [piece])
  {
  }

  /** A separator-free piece in front of a split gives a split of the joined text. */
  lemma SplitStep(piece: string, sep: char, tail: string, rest: seq<string>)
    requires sep !in piece
    requires SplitsInto(tail, sep, rest)
    ensures SplitsInto(piece + [sep] + tail, sep, [piece] + rest)
  {
  }

  /**
   * `s.split(sep)` for a one-character separator: the pieces between
   * separators, including empty ones at either end. Joining the pieces back
   * with the separator gives `s`, and no piece contains the separator.
   */
  function Split(s: string, sep: char): (r: seq<string>)
    ensures SplitsInto(s, sep, r)
  {
    assert s[0..] == s;
    SplitFrom(s, sep, 0)
  }

  /** Separator-free pieces are determined by their join. */
  lemma {:induction false} JoinInjective(x: seq<string>, y: seq<string>, sep: char)
    requires |x| > 0 && |y| > 0
    requires forall k :: 0 <= k < |x| ==> sep !in x[k]
    requires forall k :: 0 <= k < |y| ==> sep !in y[k]
    requires Join(x, sep) == Join(y, sep)
    ensures x == y
  {
    var s := Join(x, sep);
    var n, m := |x[0]|, |y[0]|;
    if |x| > 1 { assert s[n] == sep; }
    if |y| > 1 { assert s[m] == sep; }
    assert n == m;
    assert |x| > 1 <==> |y| > 1;
    assert x[0] == s[..n] == y[0];
    if |x| > 1 {
      assert Join(x[1..], sep) == s[n + 1..] == Join(y[1..], sep);
      JoinInjective(x[1..], y[1..], sep);
      assert x == [x[0]] + x[1..] && y == [y[0]] + y[1..];
    }
  }

  /** Joining then splitting gives back pieces that do not contain the separator. */
  lemma SplitJoin(pieces: seq<string>, sep: char)
    requires |pieces| > 0
    requires forall k :: 0 <= k < |pieces| ==> sep !in pieces[k]
    ensures Split(Join(pieces, sep), sep) == pieces
  {
    JoinInjective(Split(Join(pieces, sep), sep), pieces, sep);
  }

  /** A text without the separator splits into itself alone. */
  lemma SplitNoSeparator(s: string, sep: char)
    requires sep !in s
    ensures Split(s, sep) == [s]
  {
  }


  /** Joining two non-empty lists of pieces joins their joins. */
  lemma {:induction false} JoinAppend(x: seq<string>, y: seq<string>, sep: char)
    requires |x| > 0 && |y| > 0
    ensures Join(x + y, sep) == Join(x, sep) + [sep] + Join(y, sep)
  {
    if |x| == 1 {
      assert (x + y)[1..] == y;
    } else {
      assert (x + y)[1..] == x[1..] + y;
      JoinAppend(x[1..], y, sep);
    }
  }

  /** Splitting distributes over a separator: the pieces of the two sides, in order. */
  lemma SplitAppend(a: string, b: string, sep: char)
    ensures Split(a + [sep] + b, sep) == Split(a, sep) + Split(b, sep)
  {
    var x, y := Split(a, sep), Split(b, sep);
    JoinAppend(x, y, sep);
    SplitJoin(x + y, sep);
  }
}
