/**
 * Text operations of the lock-signature templater: JavaScript's
 * `String.prototype.replace` with a global literal pattern, and the
 * decimal rendering of integers that `"" + n` produces.
 *
 * A global replace scans left to right; at each position where the
 * pattern starts it emits the replacement and resumes after the match,
 * otherwise it keeps one character.  Splitting at the same matches and
 * joining the pieces back with the replacement is the independent
 * description the lemmas below connect it to.
 */
module Text {

  /** `q` occurs in `s` starting at position `i`. */
  predicate OccursAt(s: string, q: string, i: int)
  {
    0 <= i && i + |q| <= |s| && s[i..i + |q|] == q
  }

  /** Position `i` leaves room for `q` in `s`. */
  predicate HasRoom(s: string, q: string, i: int)
  {
    0 <= i && i + |q| <= |s|
  }

  /** `q` occurs somewhere in `s`. */
  ghost predicate Occurs(s: string, q: string)
  {
    exists i :: OccursAt(s, q, i)
  }

  /** `s.replace(/p/g, r)` for a pattern without special characters. */
  function ReplaceAll(s: string, p: string, r: string): string
    requires |p| > 0
    decreases |s|
  {
    if |s| < |p| then s
    else if s[..|p|] == p then r + ReplaceAll(s[|p|..], p, r)
    else [s[0]] + ReplaceAll(s[1..], p, r)
  }

  /** `s.split(p)`: the text between consecutive leftmost, non-overlapping matches. */
  function Split(s: string, p: string): (pieces: seq<string>)
    requires |p| > 0
    ensures |pieces| >= 1
    decreases |s|
  {
    if |s| < |p| then [s]
    else if s[..|p|] == p then [""] + Split(s[|p|..], p)
    else
      var t := Split(s[1..], p);
      [[s[0]] + t[0]] + t[1..]
  }

  /** `pieces.join(sep)`. */
  function Join(pieces: seq<string>, sep: string): string
    requires |pieces| >= 1
    decreases |pieces|
  {
    if |pieces| == 1 then pieces[0] else pieces[0] + sep + Join(pieces[1..], sep)
  }

  lemma JoinConsHead(c: string, t: seq<string>, sep: string)
    requires |t| >= 1
    ensures Join([c + t[0]] + t[1..], sep) == c + Join(t, sep)
  {
    var u := [c + t[0]] + t[1..];
    assert u[1..] == t[1..];
  }

  /** Replacing every match is splitting at the matches and joining with the replacement. */
  lemma {:induction false} ReplaceAllIsJoin(s: string, p: string, r: string)
    requires |p| > 0
    ensures ReplaceAll(s, p, r) == Join(Split(s, p), r)
    decreases |s|
  {
    if |s| < |p| {
    } else if s[..|p|] == p {
      ReplaceAllIsJoin(s[|p|..], p, r);
      var t := Split(s[|p|..], p);
      assert ([""] + t)[1..] == t;
    } else {
      ReplaceAllIsJoin(s[1..], p, r);
      JoinConsHead([s[0]], Split(s[1..], p), r);
      assert s == [s[0]] + s[1..];
    }
  }

  /** Joining the pieces with the pattern itself gives the text back: nothing else is lost or moved. */
  lemma {:induction false} SplitJoin(s: string, p: string)
    requires |p| > 0
    ensures Join(Split(s, p), p) == s
    decreases |s|
  {
    if |s| < |p| {
    } else if s[..|p|] == p {
      var rest := s[|p|..];
      var t := Split(rest, p);
      SplitJoin(rest, p);
      assert Split(s, p) == [""] + t;
      assert ([""] + t)[1..] == t;
      assert Join([""] + t, p) == "" + p + Join(t, p);
      assert s == s[..|p|] + rest;
    } else {
      var rest := s[1..];
      var t := Split(rest, p);
      SplitJoin(rest, p);
      assert Split(s, p) == [[s[0]] + t[0]] + t[1..];
      JoinConsHead([s[0]], t, p);
      assert s == [s[0]] + rest;
    }
  }

  /** Replacing a pattern by itself changes nothing. */
  lemma ReplaceBySelf(s: string, p: string)
    requires |p| > 0
    ensures ReplaceAll(s, p, p) == s
  {
    ReplaceAllIsJoin(s, p, p);
    SplitJoin(s, p);
  }

  /** A text without the pattern is returned unchanged. */
  lemma {:induction false} ReplaceAbsent(s: string, p: string, r: string)
    requires |p| > 0 && !Occurs(s, p)
    ensures ReplaceAll(s, p, r) == s
    decreases |s|
  {
    if |s| >= |p| {
      assert !OccursAt(s, p, 0);
      if Occurs(s[1..], p) {
        OccursInSuffix(s, p, 1);
      }
      ReplaceAbsent(s[1..], p, r);
      assert s == [s[0]] + s[1..];
    }
  }

  lemma OccursInSuffix(s: string, q: string, k: nat)
    requires k <= |s| && Occurs(s[k..], q)
    ensures Occurs(s, q)
  {
    var i :| OccursAt(s[k..], q, i);
    assert s[k + i..k + i + |q|] == s[k..][i..i + |q|];
    assert OccursAt(s, q, k + i);
  }

  lemma OccursInPrefix(s: string, q: string, k: nat)
    requires k <= |s| && Occurs(s[..k], q)
    ensures Occurs(s, q)
  {
    var i :| OccursAt(s[..k], q, i);
    assert s[i..i + |q|] == s[..k][i..i + |q|];
    assert OccursAt(s, q, i);
  }

  /** The first piece of a split is a prefix of the text. */
  lemma {:induction false} SplitHead(s: string, p: string)
    requires |p| > 0
    ensures |Split(s, p)[0]| <= |s| && Split(s, p)[0] == s[..|Split(s, p)[0]|]
    decreases |s|
  {
    if |s| >= |p| && s[..|p|] != p {
      SplitHead(s[1..], p);
    }
  }

  /** No piece of a split contains the pattern. */
  lemma {:induction false} SplitPiecesFree(s: string, p: string)
    requires |p| > 0
    ensures forall i :: 0 <= i < |Split(s, p)| ==> !Occurs(Split(s, p)[i], p)
    decreases |s|
  {
    var pieces := Split(s, p);
    if |s| < |p| {
      assert pieces == [s];
      NoRoom(s, p);
    } else if s[..|p|] == p {
      SplitPiecesFree(s[|p|..], p);
      NoRoom("", p);
      assert forall i :: 1 <= i < |pieces| ==> pieces[i] == Split(s[|p|..], p)[i - 1];
    } else {
      var t := Split(s[1..], p);
      SplitPiecesFree(s[1..], p);
      SplitHead(s[1..], p);
      HeadPieceFree(s, p, t[0]);
      assert forall i :: 1 <= i < |pieces| ==> pieces[i] == t[i];
    }
  }

  lemma NoRoom(s: string, q: string)
    requires |s| < |q|
    ensures !Occurs(s, q)
  {
  }

  /**
   * `[s[0]] + h`, a prefix of `s` that does not start with `p`, with `h`
   * free of `p`, is free of `p`.
   */
  lemma HeadPieceFree(s: string, p: string, h: string)
    requires |p| > 0 && |s| >= |p| && s[..|p|] != p
    requires |h| < |s| && h == s[1..][..|h|] && !Occurs(h, p)
    ensures !Occurs([s[0]] + h, p)
  {
    var c := [s[0]] + h;
    assert c == s[..|h| + 1];
    forall i | HasRoom(c, p, i)
      ensures !OccursAt(c, p, i)
    {
      if i == 0 {
        assert c[..|p|] == s[..|p|];
      } else {
        assert c[i..i + |p|] == h[i - 1..i - 1 + |p|];
        assert !OccursAt(h, p, i - 1);
      }
    }
  }

  /** A text without `q` splits into pieces without `q`. */
  lemma {:induction false} SplitKeepsAbsent(s: string, p: string, q: string)
    requires |p| > 0 && !Occurs(s, q)
    ensures forall i :: 0 <= i < |Split(s, p)| ==> !Occurs(Split(s, p)[i], q)
    decreases |s|
  {
    var pieces := Split(s, p);
    if |s| < |p| {
    } else if s[..|p|] == p {
      if Occurs(s[|p|..], q) {
        OccursInSuffix(s, q, |p|);
      }
      SplitKeepsAbsent(s[|p|..], p, q);
      assert Occurs("", q) ==> Occurs(s, q) by {
        if Occurs("", q) {
          assert OccursAt(s, q, 0);
        }
      }
      assert forall i :: 1 <= i < |pieces| ==> pieces[i] == Split(s[|p|..], p)[i - 1];
    } else {
      var t := Split(s[1..], p);
      if Occurs(s[1..], q) {
        OccursInSuffix(s, q, 1);
      }
      SplitKeepsAbsent(s[1..], p, q);
      SplitHead(s[1..], p);
      assert [s[0]] + t[0] == s[..|t[0]| + 1];
      if Occurs(s[..|t[0]| + 1], q) {
        OccursInPrefix(s, q, |t[0]| + 1);
      }
      assert forall i :: 1 <= i < |pieces| ==> pieces[i] == t[i];
    }
  }

  /** No character of `r` appears in `q`. */
  predicate Disjoint(r: string, q: string)
  {
    forall i, j :: 0 <= i < |r| && 0 <= j < |q| ==> r[i] != q[j]
  }

  /**
   * Gluing two `q`-free texts around a non-empty separator that shares no
   * character with `q` cannot create `q`: a window of |q| characters that
   * reaches into both sides covers a separator character.
   */
  lemma Glue(a: string, m: string, b: string, q: string)
    requires |q| > 0 && |m| > 0 && Disjoint(m, q)
    requires !Occurs(a, q) && !Occurs(b, q)
    ensures !Occurs(a + m + b, q)
  {
    var s := a + m + b;
    forall i | HasRoom(s, q, i)
      ensures !OccursAt(s, q, i)
    {
      if i + |q| <= |a| {
        assert s[i..i + |q|] == a[i..i + |q|];
        assert !OccursAt(a, q, i);
      } else if i >= |a| + |m| {
        var k := i - |a| - |m|;
        assert s[i..i + |q|] == b[k..k + |q|];
        assert !OccursAt(b, q, k);
      } else {
        var j := if i < |a| then |a| else i;
        assert s[j] == m[j - |a|];
        assert s[i..i + |q|][j - i] == s[j];
        assert s[j] != q[j - i];
      }
    }
  }

  /** Joining `q`-free pieces with such a separator gives a `q`-free text. */
  lemma {:induction false} JoinFree(pieces: seq<string>, sep: string, q: string)
    requires |q| > 0 && |pieces| >= 1 && |sep| > 0 && Disjoint(sep, q)
    requires forall i :: 0 <= i < |pieces| ==> !Occurs(pieces[i], q)
    ensures !Occurs(Join(pieces, sep), q)
    decreases |pieces|
  {
    if |pieces| > 1 {
      assert forall i :: 0 <= i < |pieces[1..]| ==> pieces[1..][i] == pieces[i + 1];
      JoinFree(pieces[1..], sep, q);
      assert !Occurs(pieces[0], q);
      Glue(pieces[0], sep, Join(pieces[1..], sep), q);
    }
  }

  /**
   * The pieces meet the separators between them at characters outside
   * `alphabet`: every piece but the last ends, and every piece but the
   * first starts, with such a character.  Only the first and the last piece
   * may be empty (a separator at either end of the text).
   */
  predicate Bordered(pieces: seq<string>, alphabet: string)
  {
    && (forall i :: 0 <= i < |pieces| - 1 ==>
          (i == 0 && pieces[i] == []) || (pieces[i] != [] && pieces[i][|pieces[i]| - 1] !in alphabet))
    && (forall i :: 0 < i < |pieces| ==>
          (i == |pieces| - 1 && pieces[i] == []) || (pieces[i] != [] && pieces[i][0] !in alphabet))
  }

  /** A window inside the left part of a concatenation is a window of that part. */
  lemma WindowLeft(x: string, y: string, i: nat, n: nat)
    requires i + n <= |x|
    ensures (x + y)[i..i + n] == x[i..i + n]
  {
    assert forall k :: i <= k < i + n ==> (x + y)[k] == x[k];
  }

  /** A window inside the right part of a concatenation is a window of that part. */
  lemma WindowRight(x: string, y: string, i: nat, n: nat)
    requires |x| <= i && i + n <= |x| + |y|
    ensures (x + y)[i..i + n] == y[i - |x|..i - |x| + n]
  {
    assert forall k :: |x| <= k < |x| + |y| ==> (x + y)[k] == y[k - |x|];
  }

  /**
   * Two `q`-free texts glued together stay `q`-free when the seam has a
   * character that `q` does not contain on the side given by `atEnd`: the
   * last one of `x`, or the first one of `y`.
   */
  lemma Seam(x: string, y: string, q: string, atEnd: bool)
    requires |q| > 0
    requires atEnd ==> x == [] || x[|x| - 1] !in q
    requires !atEnd ==> y == [] || y[0] !in q
    requires !Occurs(x, q) && !Occurs(y, q)
    ensures !Occurs(x + y, q)
  {
    var s := x + y;
    forall i | HasRoom(s, q, i)
      ensures !OccursAt(s, q, i)
    {
      if i + |q| <= |x| {
        WindowLeft(x, y, i, |q|);
        assert !OccursAt(x, q, i);
      } else if i >= |x| {
        WindowRight(x, y, i, |q|);
        assert !OccursAt(y, q, i - |x|);
      } else {
        var j := if atEnd then |x| - 1 else |x|;
        assert s[i..i + |q|][j - i] == s[j];
        assert s[j] !in q;
      }
    }
  }

  /**
   * Gluing three `q`-free texts cannot create `q` when the outer two meet
   * the middle one at characters that `q` does not contain: a window that
   * reaches across a seam covers one of those characters.
   */
  lemma GlueBordered(a: string, m: string, b: string, q: string)
    requires |q| > 0
    requires a == [] || a[|a| - 1] !in q
    requires b == [] || b[0] !in q
    requires !Occurs(a, q) && !Occurs(m, q) && !Occurs(b, q)
    ensures !Occurs(a + m + b, q)
  {
    Seam(a, m, q, true);
    Seam(a + m, b, q, false);
  }

  /** A character that cannot start `p` joins the first piece of the split of what follows it. */
  lemma SplitCons(c: char, rest: string, p: string)
    requires |p| > 0 && c != p[0]
    ensures var t := Split(rest, p);
            Split([c] + rest, p) == [[c] + t[0]] + t[1..]
  {
    var s := [c] + rest;
    assert s[1..] == rest;
    if |s| >= |p| {
      assert s[..|p|][0] == c;
    } else {
      assert |rest| < |p|;
    }
  }

  /** A text none of whose characters can start `p` joins the first piece of the split of what follows it. */
  lemma {:induction false} SplitPlain(w: string, rest: string, p: string)
    requires |p| > 0 && forall i :: 0 <= i < |w| ==> w[i] != p[0]
    ensures var t := Split(rest, p);
            Split(w + rest, p) == [w + t[0]] + t[1..]
    decreases |w|
  {
    if w == [] {
      var t := Split(rest, p);
      assert w + rest == rest && w + t[0] == t[0];
      assert t == [t[0]] + t[1..];
    } else {
      var t := Split(rest, p);
      SplitPlain(w[1..], rest, p);
      var u := Split(w[1..] + rest, p);
      assert u[0] == w[1..] + t[0] && u[1..] == t[1..];
      assert w + rest == [w[0]] + (w[1..] + rest);
      SplitCons(w[0], w[1..] + rest, p);
      assert [w[0]] + u[0] == w + t[0];
    }
  }

  /** The joined text starts where its first piece does. */
  lemma JoinHead(pieces: seq<string>, sep: string)
    requires |pieces| >= 1 && pieces[0] != []
    ensures Join(pieces, sep) != [] && Join(pieces, sep)[0] == pieces[0][0]
  {
  }

  /**
   * Joining `q`-free pieces with a `q`-free separator gives a `q`-free text
   * when the pieces are bordered by characters outside an alphabet that
   * holds every character of `q`.
   */
  lemma {:induction false} JoinBordered(pieces: seq<string>, sep: string, q: string, alphabet: string)
    requires |q| > 0 && |pieces| >= 1
    requires forall j :: 0 <= j < |q| ==> q[j] in alphabet
    requires Bordered(pieces, alphabet)
    requires !Occurs(sep, q)
    requires forall i :: 0 <= i < |pieces| ==> !Occurs(pieces[i], q)
    ensures !Occurs(Join(pieces, sep), q)
    decreases |pieces|
  {
    if |pieces| > 1 {
      var rest := pieces[1..];
      assert forall i :: 0 <= i < |rest| ==> rest[i] == pieces[i + 1];
      assert Bordered(rest, alphabet);
      JoinBordered(rest, sep, q, alphabet);
      var a, b := pieces[0], Join(rest, sep);
      assert a == [] || a[|a| - 1] !in q;
      if rest[0] != [] {
        JoinHead(rest, sep);
        assert b[0] !in alphabet;
      } else {
        assert |rest| == 1;
        assert b == [];
      }
      assert !Occurs(pieces[0], q);
      GlueBordered(a, sep, b, q);
    }
  }

  /**
   * After a global replace by a non-empty text that shares no character
   * with the pattern, the pattern does not occur.
   */
  lemma ReplaceAllRemoves(s: string, p: string, r: string)
    requires |p| > 0 && |r| > 0 && Disjoint(r, p)
    ensures !Occurs(ReplaceAll(s, p, r), p)
  {
    ReplaceAllIsJoin(s, p, r);
    SplitPiecesFree(s, p);
    JoinFree(Split(s, p), r, p);
  }

  /**
   * A global replace by a non-empty text that shares no character with
   * `q` does not introduce `q`.
   */
  lemma ReplaceAllKeepsAbsent(s: string, p: string, r: string, q: string)
    requires |p| > 0 && |q| > 0 && |r| > 0 && Disjoint(r, q) && !Occurs(s, q)
    ensures !Occurs(ReplaceAll(s, p, r), q)
  {
    ReplaceAllIsJoin(s, p, r);
    SplitKeepsAbsent(s, p, q);
    JoinFree(Split(s, p), r, q);
  }

  predicate IsDigit(c: char)
  {
    '0' <= c <= '9'
  }

  function DigitChar(d: nat): (c: char)
    requires d < 10
    ensures IsDigit(c)
  {
    ('0' as int + d) as char
  }

  function DigitValue(c: char): (d: nat)
    requires IsDigit(c)
    ensures d < 10 && DigitChar(d) == c
  {
    c as int - '0' as int
  }

  /** Decimal digits of a natural number, most significant first, no leading zero. */
  function NatToDecimal(n: nat): (s: string)
    ensures |s| >= 1
    ensures forall i :: 0 <= i < |s| ==> IsDigit(s[i])
    ensures n > 0 ==> s[0] != '0'
    decreases n
  {
    if n < 10 then [DigitChar(n)] else NatToDecimal(n / 10) + [DigitChar(n % 10)]
  }

  /** The value of a string of decimal digits. */
  function DecimalValue(s: string): nat
    requires forall i :: 0 <= i < |s| ==> IsDigit(s[i])
    decreases |s|
  {
    if s == [] then 0 else 10 * DecimalValue(s[..|s| - 1]) + DigitValue(s[|s| - 1])
  }

  lemma {:induction false} DecimalRoundTrip(n: nat)
    ensures DecimalValue(NatToDecimal(n)) == n
    decreases n
  {
    if n >= 10 {
      DecimalRoundTrip(n / 10);
      var s, q := NatToDecimal(n), NatToDecimal(n / 10);
      assert s == q + [DigitChar(n % 10)];
      assert s[..|s| - 1] == q;
      assert DigitValue(s[|s| - 1]) == n % 10;
    }
  }

  /** `"" + n` for an integer-valued number: a minus sign before the digits of |n| when negative. */
  function IntToDecimal(n: int): (s: string)
    ensures |s| >= 1
    ensures forall i :: 0 <= i < |s| ==> IsDigit(s[i]) || s[i] == '-'
  {
    if n < 0 then "-" + NatToDecimal(-n) else NatToDecimal(n)
  }

  /** Distinct integers render differently. */
  lemma IntToDecimalInjective(m: int, n: int)
    requires IntToDecimal(m) == IntToDecimal(n)
    ensures m == n
  {
    DecimalSign(m);
    DecimalSign(n);
    if m < 0 {
      NegativeDigits(m);
      NegativeDigits(n);
      NatToDecimalInjective(-m, -n);
    } else {
      NatToDecimalInjective(m, n);
    }
  }

  lemma NatToDecimalInjective(m: nat, n: nat)
    requires NatToDecimal(m) == NatToDecimal(n)
    ensures m == n
  {
    DecimalRoundTrip(m);
    DecimalRoundTrip(n);
  }

  /** The rendering starts with a minus sign exactly for negative numbers. */
  lemma DecimalSign(n: int)
    ensures IntToDecimal(n)[0] == '-' <==> n < 0
  {
    if n >= 0 {
      assert IsDigit(NatToDecimal(n)[0]);
    }
  }

  lemma NegativeDigits(n: int)
    requires n < 0
    ensures IntToDecimal(n)[0] == '-' && IntToDecimal(n)[1..] == NatToDecimal(-n)
  {
  }

  /** No character of `s` is a digit or a minus sign. */
  predicate NoNumberChar(s: string)
  {
    forall j :: 0 <= j < |s| ==> !IsDigit(s[j]) && s[j] != '-'
  }

  /** A rendered integer shares no character with a text free of digits and minus signs. */
  lemma DecimalDisjoint(n: int, q: string)
    requires NoNumberChar(q)
    ensures Disjoint(IntToDecimal(n), q)
  {
  }
}
