/**
 * The java.lang.String operations the expression compiler relies on, with
 * Java's semantics written out: trim, split on one character (trailing empty
 * pieces dropped), startsWith, contains, indexOf, lastIndexOf, replaceAll for
 * patterns without regular-expression metacharacters, and the upper-casing
 * of one character.
 */
module JavaStrings {
  import opened Results

  /** `s` starts with `p` (String.startsWith). */
  predicate StartsWith(s: string, p: string) {
    |p| <= |s| && s[..|p|] == p
  }

  /** `p` occurs in `s` starting at index `i`. */
  predicate OccursAt(s: string, p: string, i: int) {
    0 <= i && i + |p| <= |s| && s[i..i + |p|] == p
  }

  /** String.contains */
  predicate Contains(s: string, p: string) {
    exists i | 0 <= i <= |s| :: OccursAt(s, p, i)
  }

  /** String.indexOf(p, from): the first index at or after `from` where `p` occurs. */
  function IndexOf(s: string, p: string, from: nat): Option<nat>
    decreases |s| - from
  {
    if from + |p| > |s| then None
    else if s[from..from + |p|] == p then Some(from)
    else IndexOf(s, p, from + 1)
  }

  /** indexOf answers the first occurrence at or after `from`, and -1 (None) only when there is none. */
  lemma {:induction false} IndexOfFinds(s: string, p: string, from: nat)
    decreases |s| - from
    ensures IndexOf(s, p, from).Some? ==> from <= IndexOf(s, p, from).value && OccursAt(s, p, IndexOf(s, p, from).value)
    ensures IndexOf(s, p, from).Some? ==> forall k | from <= k < IndexOf(s, p, from).value :: !OccursAt(s, p, k)
    ensures IndexOf(s, p, from).None? ==> forall k | from <= k :: !OccursAt(s, p, k)
  {
    if from + |p| <= |s| && s[from..from + |p|] != p {
      IndexOfFinds(s, p, from + 1);
    }
  }

  /** String.indexOf(c, from) for a character: the first index at or after `from` holding `c`. */
  function IndexOfChar(s: string, c: char, from: nat): Option<nat>
    decreases |s| - from
  {
    if from >= |s| then None
    else if s[from] == c then Some(from)
    else IndexOfChar(s, c, from + 1)
  }

  /** indexOf on a character answers its first position at or after `from`, and None only when there is none. */
  lemma {:induction false} IndexOfCharFinds(s: string, c: char, from: nat)
    decreases |s| - from
    ensures IndexOfChar(s, c, from).Some? ==>
      from <= IndexOfChar(s, c, from).value < |s| && s[IndexOfChar(s, c, from).value] == c
    ensures IndexOfChar(s, c, from).Some? ==> forall k | from <= k < IndexOfChar(s, c, from).value :: s[k] != c
    ensures IndexOfChar(s, c, from).None? ==> forall k | from <= k < |s| :: s[k] != c
  {
    if from < |s| && s[from] != c {
      IndexOfCharFinds(s, c, from + 1);
    }
  }

  /** String.lastIndexOf(c): the last index holding `c`. */
  function LastIndexOf(s: string, c: char): Option<nat>
  {
    if s == [] then None
    else if s[|s| - 1] == c then Some(|s| - 1)
    else LastIndexOf(s[..|s| - 1], c)
  }

  /** lastIndexOf answers the last position of `c`, and None exactly when `c` does not occur. */
  lemma {:induction false} LastIndexOfFinds(s: string, c: char)
    ensures LastIndexOf(s, c).Some? ==> LastIndexOf(s, c).value < |s| && s[LastIndexOf(s, c).value] == c
    ensures LastIndexOf(s, c).Some? ==> forall k | LastIndexOf(s, c).value < k < |s| :: s[k] != c
    ensures LastIndexOf(s, c).None? <==> c !in s
  {
    if s != [] && s[|s| - 1] != c {
      assert s == s[..|s| - 1] + [s[|s| - 1]];
      LastIndexOfFinds(s[..|s| - 1], c);
    }
  }

  /** Whatever occurs in a part of a text occurs in the whole text. */
  lemma ContainsWithin(a: string, b: string, c: string, x: string)
    requires Contains(b, x)
    ensures Contains(a + b + c, x)
  {
    var i :| 0 <= i <= |b| && OccursAt(b, x, i);
    assert (a + b + c)[|a| + i..|a| + i + |x|] == b[i..i + |x|];
    assert OccursAt(a + b + c, x, |a| + i);
  }

  /** Whatever occurs in one of two texts occurs in their concatenation. */
  lemma ContainsConcat(a: string, b: string, x: string)
    requires Contains(a, x) || Contains(b, x)
    ensures Contains(a + b, x)
  {
    if Contains(a, x) {
      var i :| 0 <= i <= |a| && OccursAt(a, x, i);
      assert (a + b)[i..i + |x|] == a[i..i + |x|];
      assert OccursAt(a + b, x, i);
    } else {
      ContainsWithin(a, b, [], x);
      assert a + b + [] == a + b;
    }
  }

  /** A prefix of a text is a prefix of any extension of it. */
  lemma StartsWithConcat(a: string, b: string, p: string)
    requires StartsWith(a, p)
    ensures StartsWith(a + b, p)
  {
    assert (a + b)[..|p|] == a[..|p|];
  }

  /** A text contains itself. */
  lemma ContainsSelf(s: string)
    ensures Contains(s, s)
  {
    assert OccursAt(s, s, 0);
  }

  /** The characters String.trim removes: every code point up to and including the space. */
  predicate IsTrimmable(c: char) {
    c <= ' '
  }

  /** `s` without its leading trimmable characters. */
  function TrimStart(s: string): string
  {
    if s != [] && IsTrimmable(s[0]) then TrimStart(s[1..]) else s
  }

  /** TrimStart keeps a suffix, drops only trimmable characters, and stops at the first other one. */
  lemma {:induction false} TrimStartDrops(s: string)
    ensures |TrimStart(s)| <= |s| && TrimStart(s) == s[|s| - |TrimStart(s)|..]
    ensures forall k | 0 <= k < |s| - |TrimStart(s)| :: IsTrimmable(s[k])
    ensures TrimStart(s) == [] || !IsTrimmable(TrimStart(s)[0])
  {
    if s != [] && IsTrimmable(s[0]) {
      var t := TrimStart(s[1..]);
      TrimStartDrops(s[1..]);
      assert TrimStart(s) == t;
      assert s[1..][|s[1..]| - |t|..] == s[|s| - |t|..];
      forall k | 0 <= k < |s| - |t| ensures IsTrimmable(s[k]) {
        if k > 0 {
          assert s[k] == s[1..][k - 1];
        }
      }
    }
  }

  /** `s` without its trailing trimmable characters. */
  function TrimEnd(s: string): string
  {
    if s != [] && IsTrimmable(s[|s| - 1]) then TrimEnd(s[..|s| - 1]) else s
  }

  /** TrimEnd keeps a prefix, drops only trimmable characters, and stops at the last other one. */
  lemma {:induction false} TrimEndDrops(s: string)
    ensures |TrimEnd(s)| <= |s| && TrimEnd(s) == s[..|TrimEnd(s)|]
    ensures forall k | |TrimEnd(s)| <= k < |s| :: IsTrimmable(s[k])
    ensures TrimEnd(s) == [] || !IsTrimmable(TrimEnd(s)[|TrimEnd(s)| - 1])
  {
    if s != [] && IsTrimmable(s[|s| - 1]) {
      var t := TrimEnd(s[..|s| - 1]);
      TrimEndDrops(s[..|s| - 1]);
      assert TrimEnd(s) == t;
      assert s[..|s| - 1][..|t|] == s[..|t|];
      forall k | |t| <= k < |s| ensures IsTrimmable(s[k]) {
        if k < |s| - 1 {
          assert s[k] == s[..|s| - 1][k];
        }
      }
    }
  }

  /** String.trim */
  function Trim(s: string): string {
    TrimEnd(TrimStart(s))
  }

  /**
   * `t` is `s` trimmed: a piece of `s` that neither starts nor ends with a
   * trimmable character and has only trimmable characters around it.
   */
  ghost predicate IsTrimOf(t: string, s: string) {
    && (t == [] || (!IsTrimmable(t[0]) && !IsTrimmable(t[|t| - 1])))
    && exists o | 0 <= o <= |s| - |t| ::
         && OccursAt(s, t, o)
         && (forall k | 0 <= k < o :: IsTrimmable(s[k]))
         && (forall k | o + |t| <= k < |s| :: IsTrimmable(s[k]))
  }

  /**
   * Trimming leaves nothing exactly when every character is trimmable, and
   * otherwise a piece of the text that neither starts nor ends with one,
   * with only trimmable characters cut away on either side.
   */
  lemma TrimmedText(s: string)
    ensures Trim(s) == [] <==> forall k | 0 <= k < |s| :: IsTrimmable(s[k])
    ensures Trim(s) == [] || (!IsTrimmable(Trim(s)[0]) && !IsTrimmable(Trim(s)[|Trim(s)| - 1]))
    ensures Contains(s, Trim(s))
    ensures IsTrimOf(Trim(s), s)
  {
    var t := TrimStart(s);
    TrimStartDrops(s);
    TrimEndDrops(t);
    TrimSlice(s);
    var o := |s| - |t|;
    forall k | o + |Trim(s)| <= k < |s| ensures IsTrimmable(s[k]) {
      assert s[k] == t[k - o];
    }
    assert OccursAt(s, Trim(s), o);
  }

  /** The trimmed form of a text is unique, so IsTrimOf pins down String.trim. */
  lemma TrimOfUnique(s: string, t1: string, t2: string)
    requires IsTrimOf(t1, s) && IsTrimOf(t2, s)
    ensures t1 == t2
  {
    var o1 :| 0 <= o1 <= |s| - |t1| && OccursAt(s, t1, o1)
      && (forall k | 0 <= k < o1 :: IsTrimmable(s[k])) && (forall k | o1 + |t1| <= k < |s| :: IsTrimmable(s[k]));
    var o2 :| 0 <= o2 <= |s| - |t2| && OccursAt(s, t2, o2)
      && (forall k | 0 <= k < o2 :: IsTrimmable(s[k])) && (forall k | o2 + |t2| <= k < |s| :: IsTrimmable(s[k]));
    if t1 != [] {
      assert s[o1] == t1[0];
      assert s[o1 + |t1| - 1] == t1[|t1| - 1];
    }
    if t2 != [] {
      assert s[o2] == t2[0];
      assert s[o2 + |t2| - 1] == t2[|t2| - 1];
    }
    if t1 != [] && t2 != [] {
      assert o1 == o2 && |t1| == |t2|;
    }
  }

  /** The trimmed text sits in `s` where the leading trimmable characters end. */
  lemma TrimSlice(s: string)
    ensures var t := TrimStart(s); var r := TrimEnd(t);
      && OccursAt(s, r, |s| - |t|)
      && (r == [] ==> forall k | 0 <= k < |s| :: IsTrimmable(s[k]))
  {
    var t := TrimStart(s);
    var r := TrimEnd(t);
    TrimStartDrops(s);
    TrimEndDrops(t);
    assert s[|s| - |t|..][..|r|] == r;
  }

  /**
   * Every piece of `s` between occurrences of `sep`, empty ones included:
   * what String.split does before it drops trailing empty pieces.
   */
  function Pieces(s: string, sep: char): (r: seq<string>)
    ensures |r| >= 1
  {
    if s == [] then [[]]
    else
      var rest := Pieces(s[1..], sep);
      if s[0] == sep then [[]] + rest
      else [[s[0]] + rest[0]] + rest[1..]
  }

  /** No piece contains the separator. */
  lemma {:induction false} PiecesSeparate(s: string, sep: char)
    ensures forall k | 0 <= k < |Pieces(s, sep)| :: sep !in Pieces(s, sep)[k]
  {
    if s != [] {
      PiecesSeparate(s[1..], sep);
    }
  }

  /** The pieces glued back together with `sep` between neighbours. */
  function Glue(pieces: seq<string>, sep: char): string {
    if pieces == [] then []
    else if |pieces| == 1 then pieces[0]
    else pieces[0] + [sep] + Glue(pieces[1..], sep)
  }

  /** Splitting loses nothing: gluing the pieces back gives the original text. */
  lemma {:induction false} PiecesGlue(s: string, sep: char)
    ensures Glue(Pieces(s, sep), sep) == s
  {
    if s != [] {
      var rest := Pieces(s[1..], sep);
      PiecesGlue(s[1..], sep);
      assert s == [s[0]] + s[1..];
      if s[0] == sep {
        assert Pieces(s, sep) == [[]] + rest;
        assert ([[]] + rest)[1..] == rest;
        assert Glue(Pieces(s, sep), sep) == [] + [sep] + Glue(rest, sep);
      } else {
        var first := [s[0]] + rest[0];
        assert Pieces(s, sep) == [first] + rest[1..];
        if |rest| == 1 {
          assert Glue(rest, sep) == rest[0];
        } else {
          assert ([first] + rest[1..])[1..] == rest[1..];
          assert Glue(rest, sep) == rest[0] + [sep] + Glue(rest[1..], sep);
          assert Glue(Pieces(s, sep), sep) == first + [sep] + Glue(rest[1..], sep);
        }
      }
    }
  }

  /** `r` with its trailing empty strings removed. */
  function DropTrailingEmpty(r: seq<string>): seq<string>
  {
    if r != [] && r[|r| - 1] == [] then DropTrailingEmpty(r[..|r| - 1]) else r
  }

  /** What is dropped is a run of empty strings at the end, and all of it. */
  lemma {:induction false} DropTrailingEmptyDrops(r: seq<string>)
    ensures |DropTrailingEmpty(r)| <= |r| && DropTrailingEmpty(r) == r[..|DropTrailingEmpty(r)|]
    ensures forall k | |DropTrailingEmpty(r)| <= k < |r| :: r[k] == []
    ensures DropTrailingEmpty(r) == [] || DropTrailingEmpty(r)[|DropTrailingEmpty(r)| - 1] != []
  {
    if r != [] && r[|r| - 1] == [] {
      DropTrailingEmptyDrops(r[..|r| - 1]);
    }
  }

  /**
   * String.split(String.valueOf(sep)): a text without `sep` is returned whole;
   * otherwise its pieces, minus the empty pieces at the end.
   */
  function Split(s: string, sep: char): seq<string>
  {
    if sep !in s then [s] else DropTrailingEmpty(Pieces(s, sep))
  }

  /**
   * split returns the text whole when the separator does not occur, and
   * otherwise the pieces up to the last non-empty one; no piece holds the
   * separator.
   */
  lemma SplitPieces(s: string, sep: char)
    ensures sep !in s ==> Split(s, sep) == [s]
    ensures sep in s ==> |Split(s, sep)| <= |Pieces(s, sep)| && Split(s, sep) == Pieces(s, sep)[..|Split(s, sep)|]
    ensures sep in s ==> forall k | |Split(s, sep)| <= k < |Pieces(s, sep)| :: Pieces(s, sep)[k] == []
    ensures sep in s ==> Split(s, sep) == [] || Split(s, sep)[|Split(s, sep)| - 1] != []
    ensures forall k | 0 <= k < |Split(s, sep)| :: sep !in Split(s, sep)[k]
  {
    if sep in s {
      DropTrailingEmptyDrops(Pieces(s, sep));
      PiecesSeparate(s, sep);
    }
  }

  /**
   * String.replaceAll(pat, rep) for a pattern and a replacement without
   * regular-expression metacharacters: every occurrence of `pat`, found from
   * the left without overlapping, is replaced by `rep`.
   */
  function ReplaceAll(s: string, pat: string, rep: string): string
    requires pat != []
    decreases |s|
  {
    if |s| < |pat| then s
    else if s[..|pat|] == pat then rep + ReplaceAll(s[|pat|..], pat, rep)
    else [s[0]] + ReplaceAll(s[1..], pat, rep)
  }

  /** An occurrence in the tail is an occurrence one position further on in the whole. */
  lemma OccursAtTail(s: string, p: string, i: nat)
    requires s != []
    ensures OccursAt(s[1..], p, i) <==> OccursAt(s, p, i + 1)
  {
    if i + |p| <= |s| - 1 {
      assert s[1..][i..i + |p|] == s[i + 1..i + 1 + |p|];
    }
  }

  /** A text in which the pattern does not occur comes back unchanged. */
  lemma {:induction false} ReplaceAllAbsent(s: string, pat: string, rep: string)
    requires pat != [] && !Contains(s, pat)
    ensures ReplaceAll(s, pat, rep) == s
  {
    if |s| >= |pat| {
      assert !OccursAt(s, pat, 0);
      forall i | 0 <= i <= |s[1..]| ensures !OccursAt(s[1..], pat, i) {
        OccursAtTail(s, pat, i);
      }
      ReplaceAllAbsent(s[1..], pat, rep);
    }
  }

  /** A text in which the pattern occurs contains the replacement afterwards. */
  lemma {:induction false} ReplaceAllPresent(s: string, pat: string, rep: string)
    requires pat != [] && Contains(s, pat)
    ensures Contains(ReplaceAll(s, pat, rep), rep)
  {
    var i :| 0 <= i <= |s| && OccursAt(s, pat, i);
    if s[..|pat|] == pat {
      assert OccursAt(ReplaceAll(s, pat, rep), rep, 0);
    } else {
      assert i != 0;
      OccursAtTail(s, pat, i - 1);
      ReplaceAllPresent(s[1..], pat, rep);
      var t := ReplaceAll(s[1..], pat, rep);
      var j :| 0 <= j <= |t| && OccursAt(t, rep, j);
      assert ([s[0]] + t)[j + 1..j + 1 + |rep|] == t[j..j + |rep|];
      assert OccursAt([s[0]] + t, rep, j + 1);
    }
  }

  /** Where a text occurs, so does each of its prefixes. */
  lemma OccursPrefix(s: string, a: string, b: string, i: int)
    ensures OccursAt(s, a + b, i) ==> OccursAt(s, a, i)
  {
    if OccursAt(s, a + b, i) {
      assert s[i..i + |a|] == (a + b)[..|a|];
    }
  }

  /** An occurrence that ends inside the left part of a concatenation is one of the left part. */
  lemma OccursInLeft(a: string, b: string, pat: string, k: int)
    requires k + |pat| <= |a|
    ensures OccursAt(a + b, pat, k) <==> OccursAt(a, pat, k)
  {
    if 0 <= k {
      assert (a + b)[k..k + |pat|] == a[k..k + |pat|];
    }
  }

  /** An occurrence that starts inside the right part of a concatenation is one of the right part. */
  lemma OccursInRight(a: string, b: string, pat: string, k: int)
    requires |a| <= k
    ensures OccursAt(a + b, pat, k) <==> OccursAt(b, pat, k - |a|)
  {
    if k + |pat| <= |a + b| {
      assert (a + b)[k..k + |pat|] == b[k - |a|..k - |a| + |pat|];
    }
  }

  /** Concatenation is associative. */
  lemma Regroup(a: string, b: string, c: string)
    ensures a + b + c == a + (b + c)
  {
  }

  /** A text that holds `a + b` holds `a`. */
  lemma ContainsPrefix(s: string, a: string, b: string)
    ensures Contains(s, a + b) ==> Contains(s, a)
  {
    if Contains(s, a + b) {
      var i :| 0 <= i <= |s| && OccursAt(s, a + b, i);
      OccursPrefix(s, a, b, i);
    }
  }

  /** The first occurrence found by indexOf from 0. */
  lemma {:induction false} IndexOfIs(s: string, p: string, i: nat)
    requires OccursAt(s, p, i) && forall k | 0 <= k < i :: !OccursAt(s, p, k)
    ensures IndexOf(s, p, 0) == Some(i)
  {
    IndexOfFinds(s, p, 0);
  }

  /** The first occurrence of `a` that goes on with `b` is the first occurrence of `a + b`. */
  lemma {:induction false} IndexOfExtended(s: string, a: string, b: string, i: nat)
    requires IndexOf(s, a, 0) == Some(i) && OccursAt(s, a + b, i)
    ensures IndexOf(s, a + b, 0) == Some(i)
  {
    IndexOfFinds(s, a, 0);
    forall k | 0 <= k < i ensures !OccursAt(s, a + b, k) {
      OccursPrefix(s, a, b, k);
    }
    IndexOfIs(s, a + b, i);
  }

  /**
   * Where the pattern starts nowhere before `m`, replaceAll copies the first
   * `m` characters and goes on replacing from there.
   */
  lemma {:induction false} ReplaceAllSkip(s: string, pat: string, rep: string, m: nat)
    requires pat != [] && m <= |s|
    requires forall k | 0 <= k < m :: !OccursAt(s, pat, k)
    ensures ReplaceAll(s, pat, rep) == s[..m] + ReplaceAll(s[m..], pat, rep)
    decreases m
  {
    if m == 0 {
      assert s[..0] == [] && s[0..] == s;
    } else if |s| < |pat| {
      assert s[..m] + s[m..] == s;
    } else {
      var t := s[1..];
      assert ReplaceAll(s, pat, rep) == [s[0]] + ReplaceAll(t, pat, rep) by {
        assert !OccursAt(s, pat, 0);
      }
      assert forall k | 0 <= k < m - 1 :: !OccursAt(t, pat, k) by {
        forall k | 0 <= k < m - 1 ensures !OccursAt(t, pat, k) {
          OccursAtTail(s, pat, k);
        }
      }
      ReplaceAllSkip(t, pat, rep, m - 1);
      assert t[m - 1..] == s[m..];
      assert [s[0]] + t[..m - 1] == s[..m];
      Regroup([s[0]], t[..m - 1], ReplaceAll(s[m..], pat, rep));
    }
  }

  /**
   * replaceAll works from the left: the text before the first occurrence is
   * kept, that occurrence becomes the replacement, and replacing goes on
   * after it; a text without the pattern comes back unchanged.
   */
  lemma {:induction false} ReplaceAllFirst(s: string, pat: string, rep: string)
    requires pat != []
    ensures IndexOf(s, pat, 0).None? ==> ReplaceAll(s, pat, rep) == s
    ensures IndexOf(s, pat, 0).Some? ==>
      && IndexOf(s, pat, 0).value + |pat| <= |s|
      && ReplaceAll(s, pat, rep) ==
         s[..IndexOf(s, pat, 0).value] + rep + ReplaceAll(s[IndexOf(s, pat, 0).value + |pat|..], pat, rep)
  {
    IndexOfFinds(s, pat, 0);
    match IndexOf(s, pat, 0)
    case None =>
      ReplaceAllAbsent(s, pat, rep);
    case Some(i) =>
      ReplaceAllSkip(s, pat, rep, i);
      var t := s[i..];
      assert t[..|pat|] == pat;
      assert t[|pat|..] == s[i + |pat|..];
  }

  /**
   * Where the first `a` goes on with `b`, replacing `a + b` keeps the text
   * before it, replaces it there, and goes on after it.
   */
  lemma {:induction false} ReplaceAllFromFirst(s: string, a: string, b: string, rep: string)
    requires a != [] && IndexOf(s, a, 0).Some? && OccursAt(s, a + b, IndexOf(s, a, 0).value)
    ensures var i := IndexOf(s, a, 0).value;
      && i + |a + b| <= |s|
      && ReplaceAll(s, a + b, rep) == s[..i] + rep + ReplaceAll(s[i + |a + b|..], a + b, rep)
  {
    var i := IndexOf(s, a, 0).value;
    assert IndexOf(s, a + b, 0) == Some(i) by {
      IndexOfExtended(s, a, b, i);
    }
    ReplaceAllFirst(s, a + b, rep);
  }

  /** A pattern that occurs once, between a text it does not start in and one without it, is replaced once. */
  lemma {:induction false} ReplaceAllOnce(p: string, pat: string, q: string, rep: string)
    requires pat != []
    requires forall k | 0 <= k < |p| :: !OccursAt(p + pat + q, pat, k)
    requires !Contains(q, pat)
    ensures ReplaceAll(p + pat + q, pat, rep) == p + rep + q
  {
    var s := p + pat + q;
    ReplaceAllSkip(s, pat, rep, |p|);
    assert s[..|p|] == p && s[|p|..] == pat + q;
    assert (pat + q)[..|pat|] == pat && (pat + q)[|pat|..] == q;
    ReplaceAllAbsent(q, pat, rep);
  }

  /**
   * replaceAll(pat, d + pat) inserts the marker `d` before each occurrence;
   * so a stretch of its result without `d` at the front is the original text.
   */
  lemma ReplaceAllMarkedPrefix(s: string, pat: string, d: char, m: nat)
    requires pat != [] && m <= |ReplaceAll(s, pat, [d] + pat)|
    requires forall j | 0 <= j < m :: ReplaceAll(s, pat, [d] + pat)[j] != d
    ensures m <= |s| && ReplaceAll(s, pat, [d] + pat)[..m] == s[..m]
  {
    ReplaceAllFirst(s, pat, [d] + pat);
    if IndexOf(s, pat, 0).Some? {
      var i := IndexOf(s, pat, 0).value;
      assert ReplaceAll(s, pat, [d] + pat)[i] == d;
    }
  }

  /** An occurrence at the front becomes the marker followed by the occurrence. */
  lemma MarkFront(s: string, pat: string, d: char)
    requires pat != [] && |s| >= |pat| && s[..|pat|] == pat
    ensures ReplaceAll(s, pat, [d] + pat) == [d] + (s[..|pat|] + ReplaceAll(s[|pat|..], pat, [d] + pat))
  {
  }

  /** Any other first character is copied. */
  lemma MarkOther(s: string, pat: string, d: char)
    requires pat != [] && |s| >= |pat| && s[..|pat|] != pat
    ensures ReplaceAll(s, pat, [d] + pat) == [] + (s[..1] + ReplaceAll(s[1..], pat, [d] + pat))
  {
    assert s[..1] == [s[0]];
  }

  /**
   * An occurrence of `q` that starts in the first `b` characters survives
   * replacing in the rest when `pat` cannot start inside `q`.
   */
  lemma KeepStraddle(s: string, pat: string, rep: string, q: string, k: nat, b: nat)
    requires pat != [] && forall j | 0 < j < |q| :: q[j] != pat[0]
    requires k < b <= |s| && OccursAt(s, q, k)
    ensures Contains(s[..b] + ReplaceAll(s[b..], pat, rep), q)
  {
    var rest := s[b..];
    var m := if k + |q| <= b then 0 else k + |q| - b;
    forall j | 0 <= j < m ensures !OccursAt(rest, pat, j) {
      assert rest[j] == s[k..k + |q|][b + j - k];
    }
    ReplaceAllSkip(rest, pat, rep, m);
    var kept := s[..b + m];
    assert s[..b] + ReplaceAll(rest, pat, rep) == [] + kept + ReplaceAll(rest[m..], pat, rep);
    assert kept[k..k + |q|] == s[k..k + |q|];
    assert OccursAt(kept, q, k);
    ContainsWithin([], kept, ReplaceAll(rest[m..], pat, rep), q);
  }

  /**
   * Inserting a marker before every occurrence of `pat` keeps each
   * occurrence of a text `q` inside which `pat` cannot start.
   */
  lemma {:induction false} MarkingKeeps(s: string, pat: string, d: char, q: string)
    requires pat != [] && forall j | 0 < j < |q| :: q[j] != pat[0]
    requires Contains(s, q)
    ensures Contains(ReplaceAll(s, pat, [d] + pat), q)
    decreases |s|
  {
    var rep := [d] + pat;
    var out := ReplaceAll(s, pat, rep);
    var k :| 0 <= k <= |s| && OccursAt(s, q, k);
    if |s| >= |pat| {
      var b: nat, lead: string;
      if s[..|pat|] == pat {
        b, lead := |pat|, [d];
        MarkFront(s, pat, d);
      } else {
        b, lead := 1, [];
        MarkOther(s, pat, d);
      }
      var rest := s[b..];
      assert out == lead + (s[..b] + ReplaceAll(rest, pat, rep));
      assert Contains(s[..b] + ReplaceAll(rest, pat, rep), q) by {
        if k < b {
          KeepStraddle(s, pat, rep, q, k, b);
        } else {
          assert rest[k - b..k - b + |q|] == s[k..k + |q|];
          assert OccursAt(rest, q, k - b);
          MarkingKeeps(rest, pat, d, q);
          ContainsConcat(s[..b], ReplaceAll(rest, pat, rep), q);
        }
      }
      ContainsConcat(lead, s[..b] + ReplaceAll(rest, pat, rep), q);
    }
  }

  /**
   * An occurrence of a text without the marker that starts in the first `b`
   * characters, ahead of the marked rest, is an occurrence in the original.
   */
  lemma AddStraddle(s: string, pat: string, d: char, q: string, k: nat, b: nat)
    requires pat != [] && d !in q
    requires k < b <= |s| && OccursAt(s[..b] + ReplaceAll(s[b..], pat, [d] + pat), q, k)
    ensures OccursAt(s, q, k)
  {
    var rest := s[b..];
    var tail := ReplaceAll(rest, pat, [d] + pat);
    var out := s[..b] + tail;
    var m := if k + |q| <= b then 0 else k + |q| - b;
    forall j | 0 <= j < m ensures tail[j] != d {
      assert tail[j] == out[k..k + |q|][b + j - k];
    }
    ReplaceAllMarkedPrefix(rest, pat, d, m);
    assert out[..b + m] == s[..b + m];
    assert s[k..k + |q|] == out[..b + m][k..k + |q|];
  }

  /** Inserting a marker creates no occurrence of a text without the marker. */
  lemma {:induction false} MarkingAdds(s: string, pat: string, d: char, q: string)
    requires pat != [] && d !in q
    requires Contains(ReplaceAll(s, pat, [d] + pat), q)
    ensures Contains(s, q)
    decreases |s|, 1
  {
    var rep := [d] + pat;
    var out := ReplaceAll(s, pat, rep);
    var k :| 0 <= k <= |out| && OccursAt(out, q, k);
    if q == [] {
      assert OccursAt(s, q, 0);
    } else if |s| >= |pat| {
      if s[..|pat|] == pat {
        MarkFront(s, pat, d);
        assert q[0] != d;
        assert k != 0;
        assert out[k..k + |q|] == (s[..|pat|] + ReplaceAll(s[|pat|..], pat, rep))[k - 1..k - 1 + |q|];
        MarkedAdds(s, pat, d, q, k - 1, |pat|);
      } else {
        MarkOther(s, pat, d);
        assert out == s[..1] + ReplaceAll(s[1..], pat, rep);
        MarkedAdds(s, pat, d, q, k, 1);
      }
    }
  }

  /** An occurrence in the first `b` characters followed by the marked rest is one in the original. */
  lemma {:induction false} MarkedAdds(s: string, pat: string, d: char, q: string, k: nat, b: nat)
    requires pat != [] && d !in q && 0 < b <= |s|
    requires OccursAt(s[..b] + ReplaceAll(s[b..], pat, [d] + pat), q, k)
    ensures Contains(s, q)
    decreases |s|, 0
  {
    var rest := s[b..];
    var tail := ReplaceAll(rest, pat, [d] + pat);
    if k < b {
      AddStraddle(s, pat, d, q, k, b);
    } else {
      assert tail[k - b..k - b + |q|] == (s[..b] + tail)[k..k + |q|];
      assert OccursAt(tail, q, k - b);
      MarkingAdds(rest, pat, d, q);
      ContainsWithin(s[..b], rest, [], q);
      assert s[..b] + rest + [] == s;
    }
  }

  /**
   * replaceAll(pat, d + pat) only inserts the marker `d`: a text without
   * the marker, inside which `pat` cannot start, occurs in the result
   * exactly when it occurs in the original.
   */
  lemma {:induction false} MarkingPreserves(s: string, pat: string, d: char, q: string)
    requires pat != [] && d !in q && forall j | 0 < j < |q| :: q[j] != pat[0]
    ensures Contains(ReplaceAll(s, pat, [d] + pat), q) <==> Contains(s, q)
  {
    if Contains(s, q) {
      MarkingKeeps(s, pat, d, q);
    }
    if Contains(ReplaceAll(s, pat, [d] + pat), q) {
      MarkingAdds(s, pat, d, q);
    }
  }

  /**
   * Replacing a single character by a single character (String.replaceAll
   * with one-character pattern and replacement) keeps every position.
   */
  lemma {:induction false} ReplaceAllChar(s: string, a: char, b: char)
    ensures |ReplaceAll(s, [a], [b])| == |s|
    ensures forall k | 0 <= k < |s| ::
      ReplaceAll(s, [a], [b])[k] == if s[k] == a then b else s[k]
  {
    if s != [] {
      ReplaceAllChar(s[1..], a, b);
      var t := ReplaceAll(s[1..], [a], [b]);
      assert ReplaceAll(s, [a], [b]) == [if s[0] == a then b else s[0]] + t;
    }
  }

  /**
   * Character.toUpperCase for the ASCII letters: no lower-case letter is left,
   * a lower-case letter becomes an upper-case one, and nothing else changes.
   */
  function ToUpper(c: char): (u: char)
    ensures !('a' <= u <= 'z')
    ensures 'a' <= c <= 'z' ==> 'A' <= u <= 'Z' && c as int - u as int == 'a' as int - 'A' as int
    ensures u != c ==> 'a' <= c <= 'z'
  {
    if 'a' <= c <= 'z' then (c as int - 'a' as int + 'A' as int) as char else c
  }
}
