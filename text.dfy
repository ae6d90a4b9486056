/** string_trim and string_trim_n (regedit_dialog.c): copy a string, or at
    most n characters of it, and strip the leading and trailing spaces with
    trim_string(str, " ", " "). Only the space character is stripped. */
module Text {
  import opened RegTypes

  /** n spaces: the padding a curses field buffer carries. */
  function Blanks(n: nat): (r: string)
    ensures |r| == n
    ensures forall i :: 0 <= i < n ==> r[i] == ' '
  {
    seq(n, _ => ' ')
  }

  /** No space at either end. */
  predicate Trimmed(s: string) {
    |s| == 0 || (s[0] != ' ' && s[|s| - 1] != ' ')
  }

  lemma BlanksSplit(a: nat, b: nat)
    ensures Blanks(a + b) == Blanks(a) + Blanks(b)
  {
    assert Blanks(a + b) == Blanks(a) + Blanks(b);
  }

  /** The front half of trim_string: drop every leading space. */
  function TrimFront(s: string): (r: string)
    ensures |r| <= |s|
    ensures |r| == 0 || r[0] != ' '
    decreases |s|
  {
    if |s| > 0 && s[0] == ' ' then TrimFront(s[1..]) else s
  }

  /** What TrimFront drops is spaces only. */
  lemma {:induction false} TrimFrontFrames(s: string)
    ensures s == Blanks(|s| - |TrimFront(s)|) + TrimFront(s)
    decreases |s|
  {
    if |s| > 0 && s[0] == ' ' {
      var r := TrimFront(s[1..]);
      TrimFrontFrames(s[1..]);
      assert s == [' '] + s[1..];
      assert Blanks(|s| - |r|) == [' '] + Blanks(|s| - 1 - |r|);
    } else {
      assert Blanks(0) + s == s;
    }
  }

  /** The back half of trim_string: drop every trailing space. */
  function TrimBack(s: string): (r: string)
    ensures |r| <= |s|
    ensures |r| == 0 || r[|r| - 1] != ' '
    decreases |s|
  {
    if |s| > 0 && s[|s| - 1] == ' ' then TrimBack(s[..|s| - 1]) else s
  }

  /** What TrimBack drops is spaces only. */
  lemma {:induction false} TrimBackFrames(s: string)
    ensures s == TrimBack(s) + Blanks(|s| - |TrimBack(s)|)
    decreases |s|
  {
    if |s| > 0 && s[|s| - 1] == ' ' {
      var r := TrimBack(s[..|s| - 1]);
      TrimBackFrames(s[..|s| - 1]);
      assert s == s[..|s| - 1] + [' '];
      assert Blanks(|s| - |r|) == Blanks(|s| - 1 - |r|) + [' '];
    } else {
      assert s + Blanks(0) == s;
    }
  }

  /** How many spaces string_trim removes from the front of s. */
  function LeadingBlanks(s: string): nat {
    |s| - |TrimFront(s)|
  }

  /** string_trim: the result has no space at either end. */
  function Trim(s: string): (r: string)
    ensures |r| <= |s|
    ensures Trimmed(r)
  {
    var f := TrimFront(s);
    var r := TrimBack(f);
    TrimBackFrames(f);
    assert |r| > 0 ==> r[0] == f[0];
    r
  }

  /** string_trim removes spaces only: s is the result framed by spaces. */
  lemma TrimFrames(s: string)
    ensures LeadingBlanks(s) + |Trim(s)| <= |s|
    ensures s == Blanks(LeadingBlanks(s)) + Trim(s) + Blanks(|s| - LeadingBlanks(s) - |Trim(s)|)
  {
    var f := TrimFront(s);
    TrimFrontFrames(s);
    TrimBackFrames(f);
  }

  /** string_trim_n: trim the first n characters (talloc_strndup copies at
      most n). The result is at most n long. */
  function TrimN(s: string, n: nat): (r: string)
    ensures |r| <= n
    ensures Trimmed(r)
  {
    Trim(s[..Min(n, |s|)])
  }

  lemma {:induction false} TrimFrontOfBlanks(a: nat, t: string)
    requires |t| == 0 || t[0] != ' '
    ensures TrimFront(Blanks(a) + t) == t
  {
    if a > 0 {
      assert (Blanks(a) + t)[1..] == Blanks(a - 1) + t;
      TrimFrontOfBlanks(a - 1, t);
    } else {
      assert Blanks(a) + t == t;
    }
  }

  lemma {:induction false} TrimBackOfBlanks(t: string, b: nat)
    requires |t| == 0 || t[|t| - 1] != ' '
    ensures TrimBack(t + Blanks(b)) == t
  {
    if b > 0 {
      var s := t + Blanks(b);
      assert s[..|s| - 1] == t + Blanks(b - 1);
      TrimBackOfBlanks(t, b - 1);
    } else {
      assert t + Blanks(b) == t;
    }
  }

  /** The converse of Trim's contract: a string with no outer spaces, padded
      by any number of spaces on either side, trims back to itself. */
  lemma {:induction false} TrimOfPadded(a: nat, r: string, b: nat)
    requires Trimmed(r)
    ensures Trim(Blanks(a) + r + Blanks(b)) == r
  {
    if |r| == 0 {
      BlanksSplit(a, b);
      assert Blanks(a) + r + Blanks(b) == Blanks(a + b) + [];
      TrimFrontOfBlanks(a + b, []);
    } else {
      assert Blanks(a) + r + Blanks(b) == Blanks(a) + (r + Blanks(b));
      TrimFrontOfBlanks(a, r + Blanks(b));
      TrimBackOfBlanks(r, b);
    }
  }

  /** Trimming twice is trimming once. */
  lemma TrimIdempotent(s: string)
    ensures Trim(Trim(s)) == Trim(s)
  {
    var r := Trim(s);
    assert Blanks(0) + r + Blanks(0) == r;
    TrimOfPadded(0, r, 0);
  }

  /** A string trims to nothing exactly when it is all spaces. */
  lemma TrimEmptyIffBlank(s: string)
    ensures Trim(s) == [] <==> s == Blanks(|s|)
  {
    if s == Blanks(|s|) {
      assert s == Blanks(|s|) + [] + Blanks(0);
      TrimOfPadded(|s|, [], 0);
    } else if Trim(s) == [] {
      TrimFrames(s);
      BlanksSplit(LeadingBlanks(s), |s| - LeadingBlanks(s));
    }
  }
}
