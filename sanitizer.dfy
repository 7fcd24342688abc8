/**
 * The line sanitizer applied to the orchestrator's standard output: split on
 * newlines, drop the pieces that are blank, strip the others, and remove one
 * leading "- " bullet from each.
 */
module Sanitizer {
  import opened PyStr

  /** The bullet the orchestrator puts in front of its profile lines. */
  const Bullet: string := "- "

  /**
   * The first list comprehension: every piece stripped, in order, with the
   * pieces whose stripped form is empty left out.
   */
  function KeepNonBlank(pieces: seq<string>): (r: seq<string>)
    ensures |r| <= |pieces|
    ensures forall k :: 0 <= k < |r| ==> r[k] != [] && Trimmed(r[k])
    ensures r == [] <==> forall k :: 0 <= k < |pieces| ==> Blank(pieces[k])
  {
    if pieces == [] then []
    else
      var rest := KeepNonBlank(pieces[1..]);
      assert forall k :: 1 <= k < |pieces| ==> pieces[k] == pieces[1..][k - 1];
      var line := Strip(pieces[0]);
      if line != [] then [line] + rest else rest
  }

  /** The second list comprehension's rule: remove one leading bullet, if there is one. */
  function DropBullet(line: string): (r: string)
    ensures line == Bullet + r <==> StartsWith(line, Bullet)
    ensures !StartsWith(line, Bullet) ==> r == line
    ensures line != [] && Trimmed(line) ==> r != [] && !IsSpace(r[|r| - 1])
  {
    if StartsWith(line, Bullet) then line[2..] else line
  }

  /** The second list comprehension: `DropBullet` on every line, in order. */
  function DropBullets(lines: seq<string>): (r: seq<string>)
    ensures |r| == |lines|
    ensures forall k :: 0 <= k < |r| ==> r[k] == DropBullet(lines[k])
  {
    if lines == [] then [] else [DropBullet(lines[0])] + DropBullets(lines[1..])
  }

  /**
   * The cleaned lines of one captured standard output. At most one line per
   * newline-separated piece; every line is non-empty and does not end with
   * whitespace; there are none exactly when the output is all whitespace.
   */
  function Sanitize(stdout: string): (r: seq<string>)
    ensures |r| <= Count(stdout, '\n') + 1
    ensures forall k :: 0 <= k < |r| ==> r[k] != [] && !IsSpace(r[k][|r[k]| - 1])
    ensures r == [] <==> Blank(stdout)
  {
    var pieces := Split(stdout, '\n');
    BlankJoin(pieces, '\n');
    DropBullets(KeepNonBlank(pieces))
  }

  /** A text joined with a whitespace separator is blank exactly when every piece is. */
  lemma {:induction false} BlankJoin(pieces: seq<string>, sep: char)
    requires |pieces| > 0 && IsSpace(sep)
    ensures Blank(Join(pieces, sep)) <==> forall k :: 0 <= k < |pieces| ==> Blank(pieces[k])
  {
    if |pieces| > 1 {
      var head, tail := pieces[0], Join(pieces[1..], sep);
      BlankJoin(pieces[1..], sep);
      var s := head + [sep] + tail;
      assert forall k :: 1 <= k < |pieces| ==> pieces[k] == pieces[1..][k - 1];
      if Blank(s) {
        forall i | 0 <= i < |head| ensures IsSpace(head[i]) { assert s[i] == head[i]; }
        forall i | 0 <= i < |tail| ensures IsSpace(tail[i]) { assert s[|head| + 1 + i] == tail[i]; }
      }
      if forall k :: 0 <= k < |pieces| ==> Blank(pieces[k]) {
        assert Blank(head);
        forall i | 0 <= i < |s| ensures IsSpace(s[i]) {
          if i < |head| { assert s[i] == head[i]; }
          else if i > |head| { assert s[i] == tail[i - |head| - 1]; }
        }
      }
    }
  }

  /** Keeping the non-blank pieces of two lists keeps those of each, in order. */
  lemma {:induction false} KeepNonBlankAppend(a: seq<string>, b: seq<string>)
    ensures KeepNonBlank(a + b) == KeepNonBlank(a) + KeepNonBlank(b)
  {
    if a == [] {
      assert a + b == b;
    } else {
      assert (a + b)[0] == a[0];
      assert (a + b)[1..] == a[1..] + b;
      KeepNonBlankAppend(a[1..], b);
    }
  }

  /** Removing bullets line by line commutes with concatenation. */
  lemma DropBulletsAppend(a: seq<string>, b: seq<string>)
    ensures DropBullets(a + b) == DropBullets(a) + DropBullets(b)
  {
  }

  /**
   * Sanitizing preserves the order of lines: the output of two pieces of text
   * separated by a newline is the output of the first followed by that of the
   * second.
   */
  lemma SanitizeAppend(a: string, b: string)
    ensures Sanitize(a + "\n" + b) == Sanitize(a) + Sanitize(b)
  {
    assert a + "\n" + b == a + ['\n'] + b;
    SplitAppend(a, b, '\n');
    KeepNonBlankAppend(Split(a, '\n'), Split(b, '\n'));
    DropBulletsAppend(KeepNonBlank(Split(a, '\n')), KeepNonBlank(Split(b, '\n')));
  }

  /**
   * One line without a newline sanitizes to nothing when it is blank, and
   * otherwise to itself stripped, with one leading bullet removed.
   */
  lemma SanitizeLine(s: string)
    requires '\n' !in s
    ensures Sanitize(s) == if Blank(s) then [] else [DropBullet(Strip(s))]
  {
  }
}

/** Worked examples of the sanitizer on concrete outputs. */
module SanitizerExamples {
  import opened PyStr
  import opened Sanitizer

  /** Blank and empty lines disappear, padding is stripped and the bullet is removed. */
  lemma SanitizeExample(stdout: string)
    requires stdout == "  - foo  \n\n   \nbar"
    ensures Sanitize(stdout) == ["foo", "bar"]
  {
    var a, b, c, d := "  - foo  ", "", "   ", "bar";
    assert stdout == a + "\n" + b + "\n" + c + "\n" + d;
    SanitizeExampleLines(a, b, c, d, stdout);
  }

  /** The example with each of its four lines named, so that each is handled by its own lemma. */
  lemma SanitizeExampleLines(a: string, b: string, c: string, d: string, stdout: string)
    requires a == "  - foo  " && b == "" && c == "   " && d == "bar"
    requires stdout == a + "\n" + b + "\n" + c + "\n" + d
    ensures Sanitize(stdout) == ["foo", "bar"]
  {
    SanitizePaddedBullet(a);
    BlankSpaces(b);
    BlankSpaces(c);
    SanitizePlain(d);
    SanitizeFourLinesTo(a, b, c, d, "foo", "bar");
  }

  /** The empty line and a line of spaces are blank. */
  lemma BlankSpaces(s: string)
    requires s == "" || s == "   "
    ensures Blank(s)
  {
  }

  /** Two kept lines around two blank ones. */
  lemma SanitizeFourLinesTo(a: string, b: string, c: string, d: string, x: string, y: string)
    requires Sanitize(a) == [x] && Blank(b) && Blank(c) && Sanitize(d) == [y]
    ensures Sanitize(a + "\n" + b + "\n" + c + "\n" + d) == [x, y]
  {
    SanitizeFourLines(a, b, c, d);
    Squash(Sanitize(a), Sanitize(b), Sanitize(c), Sanitize(d), x, y);
  }

  /** Dropping the empty results of the blank lines leaves the two kept lines. */
  lemma Squash(p: seq<string>, q: seq<string>, r: seq<string>, t: seq<string>, x: string, y: string)
    requires p == [x] && q == [] && r == [] && t == [y]
    ensures p + (q + (r + t)) == [x, y]
  {
  }

  /** Four lines joined by newlines sanitize line by line. */
  lemma SanitizeFourLines(a: string, b: string, c: string, d: string)
    ensures Sanitize(a + "\n" + b + "\n" + c + "\n" + d)
         == Sanitize(a) + (Sanitize(b) + (Sanitize(c) + Sanitize(d)))
  {
    var cd := c + "\n" + d;
    var bcd := b + "\n" + cd;
    calc {
      Sanitize(a + "\n" + b + "\n" + c + "\n" + d);
      { assert a + "\n" + b + "\n" + c + "\n" + d == a + "\n" + bcd; }
      Sanitize(a + "\n" + bcd);
      { SanitizeAppend(a, bcd); }
      Sanitize(a) + Sanitize(bcd);
      { SanitizeAppend(b, cd); }
      Sanitize(a) + (Sanitize(b) + Sanitize(cd));
      { SanitizeAppend(c, d); }
      Sanitize(a) + (Sanitize(b) + (Sanitize(c) + Sanitize(d)));
    }
  }

  /** The first line of the example: padding and a bullet around `foo`. */
  lemma SanitizePaddedBullet(line: string)
    requires line == "  - foo  "
    ensures Sanitize(line) == ["foo"]
  {
    assert line == "  " + Bullet + "foo" + "  ";
    SanitizeBulletLine("  ", "foo", "  ");
  }

  /** The last line of the example: a plain word is kept as it is. */
  lemma SanitizePlain(line: string)
    requires line == "bar"
    ensures Sanitize(line) == [line]
  {
    assert line == "" + line + "";
    StripUnique("", line, "");
    assert !IsSpace(line[0]);
    assert '\n' !in line;
    assert !StartsWith(line, Bullet);
    SanitizeLine(line);
  }

  /** A padded bulleted line comes out without padding and bullet. */
  lemma SanitizeBulletLine(a: string, t: string, b: string)
    requires Blank(a) && Blank(b) && '\n' !in a + b
    requires t != [] && !IsSpace(t[|t| - 1]) && '\n' !in t
    ensures Sanitize(a + Bullet + t + b) == [t]
  {
    var s := a + (Bullet + t) + b;
    assert a + Bullet + t + b == s;
    PaddedLine(a, Bullet + t, b);
    SanitizeLine(s);
    assert (Bullet + t)[..2] == Bullet && (Bullet + t)[2..] == t;
  }

  /** A padded line that starts with a non-space character strips back to itself. */
  lemma PaddedLine(a: string, line: string, b: string)
    requires Blank(a) && Blank(b) && '\n' !in a + b
    requires |line| > 1 && line[0] == '-' && !IsSpace(line[|line| - 1]) && '\n' !in line
    ensures Strip(a + line + b) == line && !Blank(a + line + b) && '\n' !in a + line + b
  {
    var s := a + line + b;
    StripUnique(a, line, b);
    assert s[|a|] == '-';
  }

  /**
   * Only one bullet is removed, whatever follows it: a second bullet stays,
   * and so does a space, since the bullet is removed after stripping.
   */
  lemma SanitizeOneBullet(line: string)
    requires line == "- - x" || line == "-  x"
    ensures Sanitize(line) == [line[2..]]
  {
    var e, t := "", line[2..];
    assert line == e + Bullet + t + e;
    SanitizeBulletLine(e, t, e);
  }
}
