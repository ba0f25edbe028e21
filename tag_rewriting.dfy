/**
 * replaceTags over fragments holding any number of tag references.
 *
 * The compiler finds the references one after another and, for each, replaces
 * every copy of the matched text in the fragment by the engine's lookup
 * `tags["<name>"]`. Here that is proved to come to the same as reading the
 * fragment once from left to right and replacing each reference where it
 * stands (ReferencesRewritten), so every reference is rewritten and the text
 * between the references is kept.
 */
module TagRewriting {
  import opened JavaStrings
  import opened DslSpec

  /**
   * `t` is the text of a reference to `name`: `tags.`, the name (a
   * non-empty run of word characters) and one whitespace character.
   */
  predicate IsReferenceText(t: string, name: string) {
    && name != []
    && (forall k | 0 <= k < |name| :: IsWordChar(name[k]))
    && |t| == |TagsToken| + |name| + 1
    && t[..|TagsToken|] == TagsToken
    && t[|TagsToken|..|t| - 1] == name
    && IsSpaceChar(t[|t| - 1])
  }

  /**
   * The text from `i` on with every tag reference replaced by its lookup,
   * read left to right, and the text between the references kept.
   */
  function ReferencesRewritten(s: string, i: nat): string
    requires i <= |s|
    decreases |s| - i
  {
    if i == |s| then []
    else if TagAt(s, i) then TagLookup(TagMatchAt(s, i).name) + ReferencesRewritten(s, TagMatchAt(s, i).end)
    else [s[i]] + ReferencesRewritten(s, i + 1)
  }

  /** The text from `i` on with the references whose text is in `done` replaced, the others kept. */
  function RewrittenFrom(s: string, done: set<string>, i: nat): string
    requires i <= |s|
    decreases |s| - i
  {
    if i == |s| then []
    else if TagAt(s, i) then
      var m := TagMatchAt(s, i);
      (if m.text in done then TagLookup(m.name) else m.text) + RewrittenFrom(s, done, m.end)
    else [s[i]] + RewrittenFrom(s, done, i + 1)
  }

  function TextsOf(ms: seq<TagMatch>): set<string> {
    set m | m in ms :: m.text
  }

  // ----- the characters of reference texts and lookups -----

  lemma {:induction false} ReferenceTextChars(t: string, name: string)
    requires IsReferenceText(t, name)
    ensures |t| >= 7
    ensures t[0] == 't' && t[1] == 'a' && t[2] == 'g' && t[3] == 's' && t[4] == '.'
    ensures forall k | |TagsToken| <= k < |t| - 1 :: IsWordChar(t[k])
  {
    var head := t[..|TagsToken|];
    assert head == "tags.";
    assert t[0] == head[0] && t[1] == head[1] && t[2] == head[2] && t[3] == head[3] && t[4] == head[4];
    forall k | |TagsToken| <= k < |t| - 1 ensures IsWordChar(t[k]) {
      assert t[k] == t[5..|t| - 1][k - 5];
    }
  }

  lemma {:induction false} ReferenceTextOf(name: string, w: char)
    requires name != [] && (forall k | 0 <= k < |name| :: IsWordChar(name[k])) && IsSpaceChar(w)
    ensures IsReferenceText(TagsToken + name + [w], name)
  {
    var t := TagsToken + name + [w];
    assert t[..5] == TagsToken;
    assert t[5..|t| - 1] == name;
  }

  lemma {:induction false} LookupChars(n: string)
    ensures |TagLookup(n)| == |n| + 8 && TagLookup(n)[|n| + 7] == ']'
    ensures TagLookup(n)[0] == 't' && TagLookup(n)[1] == 'a' && TagLookup(n)[2] == 'g' && TagLookup(n)[3] == 's' && TagLookup(n)[4] == '['
    ensures forall k | 0 <= k < |n| :: TagLookup(n)[6 + k] == n[k]
  {
  }

  /** The text a scan match covers is a reference text, for the match's name. */
  lemma {:induction false} MatchIsReference(s: string, p: nat)
    requires TagAt(s, p)
    ensures IsReferenceText(TagMatchAt(s, p).text, TagMatchAt(s, p).name)
  {
    var m := TagMatchAt(s, p);
    var n := WordRun(s, p + |TagsToken|);
    var e := p + |TagsToken| + n + 1;
    assert m.text == s[p..e] && m.name == s[p + 5..e - 1];
    assert m.text[..5] == s[p..p + 5];
    assert m.text[5..|m.text| - 1] == s[p..e][5..e - p - 1] == s[p + 5..e - 1];
    forall k | 0 <= k < |m.name| ensures IsWordChar(m.name[k]) {
      assert m.name[k] == s[p + 5 + k];
    }
  }

  /** Wherever a reference text occurs, a reference to its name starts. */
  lemma {:induction false} ReferenceOccurrence(s: string, t: string, name: string, j: nat)
    requires IsReferenceText(t, name)
    ensures OccursAt(s, t, j) ==> TagAt(s, j) && TagMatchAt(s, j).text == t && TagMatchAt(s, j).name == name
  {
    if OccursAt(s, t, j) {
      ReferenceTextChars(t, name);
      var e := j + |t| - 1;
      forall k | j + 5 <= k < e ensures IsWordChar(s[k]) {
        assert s[k] == s[j..j + |t|][k - j];
      }
      assert s[e] == s[j..j + |t|][|t| - 1];
      WordRunUpTo(s, j + 5, e);
      assert s[j..j + 5] == TagsToken by {
        forall k | 0 <= k < 5 ensures s[j + k] == TagsToken[k] {
          assert s[j + k] == s[j..j + |t|][k] == t[k] == t[..5][k];
        }
      }
      assert s[j + 5..e] == name by {
        forall k | 0 <= k < |name| ensures s[j + 5 + k] == name[k] {
          assert s[j + 5 + k] == s[j..j + |t|][5 + k] == t[5 + k] == t[5..|t| - 1][k];
        }
      }
    }
  }

  // ----- where a reference text can occur -----

  /** No reference text starts inside a lookup `tags["<n>"]`. */
  lemma {:induction false} NoReferenceInLookup(n: string, y: string, t: string, name: string)
    requires forall k | 0 <= k < |n| :: IsWordChar(n[k])
    requires IsReferenceText(t, name)
    ensures forall k | 0 <= k < |TagLookup(n)| :: !OccursAt(TagLookup(n) + y, t, k)
  {
    ReferenceTextChars(t, name);
    LookupChars(n);
    var l := TagLookup(n);
    var z := l + y;
    forall k | 0 <= k < |l| ensures !OccursAt(z, t, k) {
      if k + |t| <= |z| {
        // the `.` of `t` falls inside the lookup, which has none, or the lookup's `]` falls inside `t`
        var x := if k + 4 < |l| then 4 else |l| - 1 - k;
        assert z[k..k + |t|][x] == z[k + x] == l[k + x];
        if 6 <= k + x < |l| - 2 {
          assert l[k + x] == n[k + x - 6];
        }
      }
    }
  }

  /** No reference text other than `u` starts inside `u`. */
  lemma {:induction false} NoReferenceInOther(u: string, n: string, y: string, t: string, name: string)
    requires IsReferenceText(u, n) && IsReferenceText(t, name) && u != t
    ensures forall k | 0 <= k < |u| :: !OccursAt(u + y, t, k)
  {
    ReferenceTextChars(u, n);
    ReferenceTextChars(t, name);
    var z := u + y;
    forall k | 0 <= k < |u| ensures !OccursAt(z, t, k) {
      if k + |t| <= |z| {
        if k == 0 && |t| == |u| {
          assert z[..|t|] == u;
        } else {
          // the last character of the shorter one is whitespace where the other has a word character,
          // or the `.` of `t` meets a word or whitespace character of `u`
          var x := if k == 0 then (if |t| < |u| then |t| - 1 else |u| - 1)
                   else if k + 4 < |u| then 4 else |u| - 1 - k;
          assert z[k..k + |t|][x] == z[k + x] == u[k + x];
        }
      }
    }
  }

  /** A reference text cannot run on into text that begins with `tags` and `[` or `.`. */
  lemma {:induction false} StraddleMismatch(a: string, c: string, t: string, name: string)
    requires IsReferenceText(t, name)
    requires 0 < |a| < |t| <= |a + c|
    requires |c| >= 5 && c[0] == 't' && c[1] == 'a' && c[2] == 'g' && c[3] == 's' && (c[4] == '.' || c[4] == '[')
    ensures !OccursAt(a + c, t, 0)
  {
    ReferenceTextChars(t, name);
    var d := |a|;
    var r := a + c;
    var x := if d <= 4 || d == |t| - 1 then 0 else if d + 4 <= |t| - 2 then 4 else |t| - 1 - d;
    assert r[..|t|][d + x] == r[d + x] == c[x];
  }

  // ----- the partial rewrite -----

  /** Up to the next reference, the rewritten text is the text itself. */
  lemma {:induction false} RewrittenPlain(s: string, done: set<string>, i: nat, j: nat)
    requires i <= j <= |s|
    requires forall p | i <= p < j :: !TagAt(s, p)
    ensures RewrittenFrom(s, done, i) == s[i..j] + RewrittenFrom(s, done, j)
    decreases j - i
  {
    if i < j {
      calc {
        RewrittenFrom(s, done, i);
      == { assert !TagAt(s, i); }
        [s[i]] + RewrittenFrom(s, done, i + 1);
      == { RewrittenPlain(s, done, i + 1, j); }
        [s[i]] + (s[i + 1..j] + RewrittenFrom(s, done, j));
      == { Regroup([s[i]], s[i + 1..j], RewrittenFrom(s, done, j)); }
        [s[i]] + s[i + 1..j] + RewrittenFrom(s, done, j);
      == { assert [s[i]] + s[i + 1..j] == s[i..j]; }
        s[i..j] + RewrittenFrom(s, done, j);
      }
    } else {
      assert s[i..j] == [];
    }
  }

  /** With nothing to replace, the text is kept. */
  lemma {:induction false} RewrittenNothing(s: string, i: nat)
    requires i <= |s|
    ensures RewrittenFrom(s, {}, i) == s[i..]
    decreases |s| - i
  {
    if i < |s| {
      if TagAt(s, i) {
        var m := TagMatchAt(s, i);
        calc {
          RewrittenFrom(s, {}, i);
          m.text + RewrittenFrom(s, {}, m.end);
        == { RewrittenNothing(s, m.end); }
          s[i..m.end] + s[m.end..];
        == { assert s[i..] == s[i..m.end] + s[m.end..]; }
          s[i..];
        }
      } else {
        calc {
          RewrittenFrom(s, {}, i);
          [s[i]] + RewrittenFrom(s, {}, i + 1);
        == { RewrittenNothing(s, i + 1); }
          [s[i]] + s[i + 1..];
        == { assert s[i..] == [s[i]] + s[i + 1..]; }
          s[i..];
        }
      }
    }
  }

  /** A rewritten reference, or a kept one, begins with `tags` and then `[` or `.`. */
  lemma {:induction false} RewrittenAtReference(s: string, done: set<string>, j: nat)
    requires j <= |s| && TagAt(s, j)
    ensures var r := RewrittenFrom(s, done, j);
      |r| >= 5 && r[0] == 't' && r[1] == 'a' && r[2] == 'g' && r[3] == 's' && (r[4] == '.' || r[4] == '[')
  {
    var m := TagMatchAt(s, j);
    MatchIsReference(s, j);
    ReferenceTextChars(m.text, m.name);
    LookupChars(m.name);
  }

  /** Where no reference starts, no reference text starts in the rewritten text either. */
  lemma {:induction false} NoOccurrenceAtPlain(s: string, done: set<string>, i: nat, t: string, name: string)
    requires i < |s| && !TagAt(s, i) && IsReferenceText(t, name)
    ensures !OccursAt(RewrittenFrom(s, done, i), t, 0)
  {
    match FindTag(s, i)
    case None =>
      NoOccurrenceBefore(s, done, i, |s|, t, name);
    case Some(m) =>
      NoOccurrenceBefore(s, done, i, m.start, t, name);
  }

  /** The same, given where the next reference starts (or that none does). */
  lemma {:induction false} NoOccurrenceBefore(s: string, done: set<string>, i: nat, j: nat, t: string, name: string)
    requires i < j <= |s| && IsReferenceText(t, name)
    requires forall p | i <= p < j :: !TagAt(s, p)
    requires j == |s| || TagAt(s, j)
    ensures !OccursAt(RewrittenFrom(s, done, i), t, 0)
  {
    ReferenceOccurrence(s, t, name, i);
    RewrittenPlain(s, done, i, j);
    var r := RewrittenFrom(s, done, i);
    var c := RewrittenFrom(s, done, j);
    if |t| <= j - i {
      if |t| <= |r| {
        assert r[..|t|] == s[i..i + |t|];
      }
    } else if j < |s| && |t| <= |r| {
      // the next reference starts inside the first |t| characters, and `t` cannot continue into it
      RewrittenAtReference(s, done, j);
      StraddleMismatch(s[i..j], c, t, name);
    }
  }

  /** Text with no occurrence starting in its first part is replaced in the rest alone. */
  lemma {:induction false} ReplaceAllPast(a: string, y: string, t: string, l: string)
    requires t != []
    requires forall k | 0 <= k < |a| :: !OccursAt(a + y, t, k)
    ensures ReplaceAll(a + y, t, l) == a + ReplaceAll(y, t, l)
  {
    ReplaceAllSkip(a + y, t, l, |a|);
    assert (a + y)[..|a|] == a && (a + y)[|a|..] == y;
  }

  /** An occurrence at the front is replaced there. */
  lemma {:induction false} ReplaceAllFront(t: string, y: string, l: string)
    requires t != []
    ensures ReplaceAll(t + y, t, l) == l + ReplaceAll(y, t, l)
  {
    assert (t + y)[..|t|] == t && (t + y)[|t|..] == y;
  }

  /** Replacing one reference text everywhere rewrites exactly the references with that text. */
  lemma {:induction false} ReplaceReference(s: string, done: set<string>, i: nat, t: string, name: string)
    requires i <= |s| && IsReferenceText(t, name)
    ensures ReplaceAll(RewrittenFrom(s, done, i), t, TagLookup(name)) == RewrittenFrom(s, done + {t}, i)
    decreases |s| - i
  {
    if i < |s| {
      if TagAt(s, i) {
        ReplaceAtReference(s, done, i, t, name);
      } else {
        var y := RewrittenFrom(s, done, i + 1);
        ReplaceReference(s, done, i + 1, t, name);
        NoOccurrenceAtPlain(s, done, i, t, name);
        assert RewrittenFrom(s, done, i) == [s[i]] + y;
        ReplaceAllPast([s[i]], y, t, TagLookup(name));
      }
    }
  }

  lemma {:induction false} ReplaceAtReference(s: string, done: set<string>, i: nat, t: string, name: string)
    requires i < |s| && TagAt(s, i) && IsReferenceText(t, name)
    ensures ReplaceAll(RewrittenFrom(s, done, i), t, TagLookup(name)) == RewrittenFrom(s, done + {t}, i)
    decreases |s| - i, 0
  {
    var m := TagMatchAt(s, i);
    MatchIsReference(s, i);
    var y := RewrittenFrom(s, done, m.end);
    ReplaceReference(s, done, m.end, t, name);
    var chunk := if m.text in done then TagLookup(m.name) else m.text;
    assert RewrittenFrom(s, done, i) == chunk + y;
    if m.text !in done && m.text == t {
      ReplaceAllFront(t, y, TagLookup(name));
    } else if m.text in done {
      NoReferenceInLookup(m.name, y, t, name);
      ReplaceAllPast(chunk, y, t, TagLookup(name));
    } else {
      NoReferenceInOther(m.text, m.name, y, t, name);
      ReplaceAllPast(chunk, y, t, TagLookup(name));
    }
  }

  /** Replacing the matches' texts one after another rewrites the references with those texts. */
  lemma {:induction false} ApplyRewritesRewrite(s: string, done: set<string>, ms: seq<TagMatch>)
    requires forall k | 0 <= k < |ms| :: TagAt(s, ms[k].start) && ms[k] == TagMatchAt(s, ms[k].start) && ms[k].text != []
    ensures ApplyTagRewrites(RewrittenFrom(s, done, 0), ms) == RewrittenFrom(s, done + TextsOf(ms), 0)
    decreases |ms|
  {
    if ms == [] {
      assert TextsOf(ms) == {};
      assert done + {} == done;
    } else {
      var m := ms[0];
      calc {
        ApplyTagRewrites(RewrittenFrom(s, done, 0), ms);
      == { FirstRewrite(s, done, ms); }
        ApplyTagRewrites(RewrittenFrom(s, done + {m.text}, 0), ms[1..]);
      == { ApplyRewritesRewrite(s, done + {m.text}, ms[1..]); }
        RewrittenFrom(s, done + {m.text} + TextsOf(ms[1..]), 0);
      == { TextsOfFirst(done, ms); }
        RewrittenFrom(s, done + TextsOf(ms), 0);
      }
    }
  }

  /** The first replacement adds the first reference's text to `done`. */
  lemma {:induction false} FirstRewrite(s: string, done: set<string>, ms: seq<TagMatch>)
    requires ms != []
    requires forall k | 0 <= k < |ms| :: TagAt(s, ms[k].start) && ms[k] == TagMatchAt(s, ms[k].start) && ms[k].text != []
    ensures ApplyTagRewrites(RewrittenFrom(s, done, 0), ms)
         == ApplyTagRewrites(RewrittenFrom(s, done + {ms[0].text}, 0), ms[1..])
  {
    MatchIsReference(s, ms[0].start);
    ReplaceReference(s, done, 0, ms[0].text, ms[0].name);
  }

  lemma {:induction false} TextsOfFirst(done: set<string>, ms: seq<TagMatch>)
    requires ms != []
    ensures done + {ms[0].text} + TextsOf(ms[1..]) == done + TextsOf(ms)
  {
    assert ms == [ms[0]] + ms[1..];
    assert TextsOf(ms) == {ms[0].text} + TextsOf(ms[1..]);
  }

  /** Once every reference's text is in `done`, every reference is rewritten. */
  lemma {:induction false} RewrittenEverything(s: string, done: set<string>, i: nat)
    requires i <= |s|
    requires forall p | i <= p <= |s| && TagAt(s, p) :: TagMatchAt(s, p).text in done
    ensures RewrittenFrom(s, done, i) == ReferencesRewritten(s, i)
    decreases |s| - i
  {
    if i < |s| {
      if TagAt(s, i) {
        RewrittenEverything(s, done, TagMatchAt(s, i).end);
      } else {
        RewrittenEverything(s, done, i + 1);
      }
    }
  }

  /**
   * replaceTags rewrites every tag reference of a fragment, however many it
   * holds: each `tags.<name>` with the whitespace after it becomes
   * `tags["<name>"]`, and the text between the references is kept.
   */
  lemma {:induction false} TagsReplacedRewritesAll(s: string)
    ensures TagsReplaced(s) == ReferencesRewritten(s, 0)
  {
    var ms := ScanTags(s, 0);
    ScanTagsComplete(s, 0);
    forall p | 0 <= p <= |s| && TagAt(s, p) ensures TagMatchAt(s, p).text in TextsOf(ms) {
      var k :| 0 <= k < |ms| && ms[k].start == p;
      assert ms[k] in ms;
    }
    calc {
      TagsReplaced(s);
      ApplyTagRewrites(s, ms);
    == { RewrittenNothing(s, 0); assert s[0..] == s; }
      ApplyTagRewrites(RewrittenFrom(s, {}, 0), ms);
    == { ApplyRewritesRewrite(s, {}, ms); assert {} + TextsOf(ms) == TextsOf(ms); }
      RewrittenFrom(s, TextsOf(ms), 0);
    == { RewrittenEverything(s, TextsOf(ms), 0); }
      ReferencesRewritten(s, 0);
    }
  }

  // ----- one reference after another -----

  /** Up to the next reference, the text is kept. */
  lemma {:induction false} ReferencesPlain(s: string, i: nat, j: nat)
    requires i <= j <= |s|
    requires forall p | i <= p < j :: !TagAt(s, p)
    ensures ReferencesRewritten(s, i) == s[i..j] + ReferencesRewritten(s, j)
    decreases j - i
  {
    if i < j {
      calc {
        ReferencesRewritten(s, i);
      == { assert !TagAt(s, i); }
        [s[i]] + ReferencesRewritten(s, i + 1);
      == { ReferencesPlain(s, i + 1, j); }
        [s[i]] + (s[i + 1..j] + ReferencesRewritten(s, j));
      == { Regroup([s[i]], s[i + 1..j], ReferencesRewritten(s, j)); }
        [s[i]] + s[i + 1..j] + ReferencesRewritten(s, j);
      == { assert [s[i]] + s[i + 1..j] == s[i..j]; }
        s[i..j] + ReferencesRewritten(s, j);
      }
    } else {
      assert s[i..j] == [];
    }
  }

  /** A reference becomes its lookup. */
  lemma {:induction false} ReferencesAtReference(s: string, i: nat, t: string, name: string)
    requires IsReferenceText(t, name) && OccursAt(s, t, i)
    ensures ReferencesRewritten(s, i) == TagLookup(name) + ReferencesRewritten(s, i + |t|)
  {
    ReferenceOccurrence(s, t, name, i);
    var m := TagMatchAt(s, i);
    assert |m.text| == m.end - i;
    assert i < |s|;
    assert ReferencesRewritten(s, i) == TagLookup(m.name) + ReferencesRewritten(s, m.end);
  }

  /** `q` is the text of `s` from `d` on. */
  predicate SuffixAt(s: string, d: nat, q: string) {
    d + |q| == |s| && forall j | 0 <= j < |q| :: s[d + j] == q[j]
  }

  lemma {:induction false} SuffixSlice(s: string, d: nat, q: string, a: nat, b: nat, x: nat, y: nat)
    requires SuffixAt(s, d, q) && a <= b <= |q| && x == d + a && y == d + b
    ensures s[x..y] == q[a..b]
  {
    forall j | 0 <= j < b - a ensures s[x..y][j] == q[a..b][j] {
      assert q[a + j] == s[d + (a + j)];
    }
  }

  /**
   * A run of word characters depends only on the text from where it starts.
   * (Here and below `j` is the position in `s` of position `k` of `q`.)
   */
  lemma {:induction false} WordRunShift(s: string, d: nat, q: string, k: nat, j: nat)
    requires SuffixAt(s, d, q) && k <= |q| && j == d + k
    ensures WordRun(s, j) == WordRun(q, k)
  {
    var n := WordRun(q, k);
    forall x | j <= x < j + n ensures IsWordChar(s[x]) {
      assert q[x - d] == s[d + (x - d)];
    }
    if k + n < |q| {
      assert q[k + n] == s[d + (k + n)];
    }
    WordRunUpTo(s, j, j + n);
  }

  /** So does whether a reference starts there. */
  lemma {:induction false} TagAtShift(s: string, d: nat, q: string, k: nat, j: nat)
    requires SuffixAt(s, d, q) && k <= |q| && j == d + k
    ensures TagAt(s, j) <==> TagAt(q, k)
  {
    if k + |TagsToken| <= |q| {
      SuffixSlice(s, d, q, k, k + |TagsToken|, j, j + |TagsToken|);
      WordRunShift(s, d, q, k + |TagsToken|, j + |TagsToken|);
      var n := WordRun(q, k + |TagsToken|);
      if k + |TagsToken| + n < |q| {
        assert q[k + |TagsToken| + n] == s[d + (k + |TagsToken| + n)];
      }
    }
  }

  /** And the reference that starts there. */
  lemma {:induction false} MatchShift(s: string, d: nat, q: string, k: nat, j: nat)
    requires SuffixAt(s, d, q) && k <= |q| && j == d + k && TagAt(q, k)
    ensures TagAt(s, j)
    ensures var m := TagMatchAt(q, k);
      TagMatchAt(s, j) == TagMatch(j, d + m.end, m.text, m.name)
  {
    TagAtShift(s, d, q, k, j);
    WordRunShift(s, d, q, k + |TagsToken|, j + |TagsToken|);
    var n := WordRun(q, k + |TagsToken|);
    var e := k + |TagsToken| + n;
    SuffixSlice(s, d, q, k, e + 1, j, d + e + 1);
    SuffixSlice(s, d, q, k + |TagsToken|, e, j + |TagsToken|, d + e);
    assert TagMatchAt(q, k) == TagMatch(k, e + 1, q[k..e + 1], q[k + |TagsToken|..e]);
    assert TagMatchAt(s, j) == TagMatch(j, d + e + 1, s[j..d + e + 1], s[j + |TagsToken|..d + e]);
  }

  /** And the rewrite from there on. */
  lemma {:induction false} ReferencesShift(s: string, d: nat, q: string, k: nat, j: nat)
    requires SuffixAt(s, d, q) && k <= |q| && j == d + k
    ensures ReferencesRewritten(s, j) == ReferencesRewritten(q, k)
    decreases |q| - k
  {
    if k == |q| {
      assert j == |s|;
    } else if TagAt(q, k) {
      MatchShift(s, d, q, k, j);
      var m := TagMatchAt(q, k);
      ReferencesShift(s, d, q, m.end, d + m.end);
    } else {
      TagAtShift(s, d, q, k, j);
      ReferencesShift(s, d, q, k + 1, j + 1);
      assert q[k] == s[j];
    }
  }

  /** The three parts of a concatenation are where they are. */
  lemma {:induction false} PartsOf(a: string, b: string, c: string)
    ensures OccursAt(a + b + c, b, |a|)
    ensures (a + b + c)[..|a|] == a && SuffixAt(a + b + c, |a| + |b|, c)
  {
    assert (a + b + c)[|a|..|a| + |b|] == b;
    forall j | 0 <= j < |c| ensures (a + b + c)[|a| + |b| + j] == c[j] {
    }
  }

  /**
   * The first tag reference of a fragment becomes its lookup, the text
   * before it is kept, and the rest of the fragment is rewritten the same
   * way, whatever references it holds. The text before it may hold `tags.`
   * as long as no reference starts there.
   */
  lemma {:induction false} TagsReplacedStep(p: string, name: string, w: char, q: string)
    requires name != [] && (forall k | 0 <= k < |name| :: IsWordChar(name[k])) && IsSpaceChar(w)
    requires forall k | 0 <= k < |p| :: !TagAt(p + TagsToken + name + [w] + q, k)
    ensures TagsReplaced(p + TagsToken + name + [w] + q) == p + TagLookup(name) + TagsReplaced(q)
  {
    TagsReplacedRewritesAll(p + TagsToken + name + [w] + q);
    TagsReplacedRewritesAll(q);
    ReferencesStep(p, name, w, q);
  }

  lemma {:induction false} ReferencesStep(p: string, name: string, w: char, q: string)
    requires name != [] && (forall k | 0 <= k < |name| :: IsWordChar(name[k])) && IsSpaceChar(w)
    requires forall k | 0 <= k < |p| :: !TagAt(p + TagsToken + name + [w] + q, k)
    ensures ReferencesRewritten(p + TagsToken + name + [w] + q, 0) == p + TagLookup(name) + ReferencesRewritten(q, 0)
  {
    var t := TagsToken + name + [w];
    var s := p + TagsToken + name + [w] + q;
    Regroup(p, TagsToken, name);
    Regroup(p, TagsToken + name, [w]);
    assert s == p + t + q;
    ReferenceTextOf(name, w);
    ReferencesAfter(p, t, q, name);
  }

  lemma {:induction false} ReferencesAfter(p: string, t: string, q: string, name: string)
    requires IsReferenceText(t, name)
    requires forall k | 0 <= k < |p| :: !TagAt(p + t + q, k)
    ensures ReferencesRewritten(p + t + q, 0) == p + TagLookup(name) + ReferencesRewritten(q, 0)
  {
    var s := p + t + q;
    PartsOf(p, t, q);
    ReferencesPlain(s, 0, |p|);
    assert ReferencesRewritten(s, 0) == p + ReferencesRewritten(s, |p|);
    ReferenceThenRest(s, |p|, t, q, name);
    Regroup(p, TagLookup(name), ReferencesRewritten(q, 0));
  }

  lemma {:induction false} ReferenceThenRest(s: string, i: nat, t: string, q: string, name: string)
    requires IsReferenceText(t, name) && OccursAt(s, t, i) && SuffixAt(s, i + |t|, q)
    ensures ReferencesRewritten(s, i) == TagLookup(name) + ReferencesRewritten(q, 0)
  {
    calc {
      ReferencesRewritten(s, i);
    == { ReferencesAtReference(s, i, t, name); }
      TagLookup(name) + ReferencesRewritten(s, i + |t|);
    == { RestRewritten(s, i + |t|, q); }
      TagLookup(name) + ReferencesRewritten(q, 0);
    }
  }

  /** The rewriting of a suffix `q` of `s` starting at `d` is the rewriting of `q` itself. */
  lemma {:induction false} RestRewritten(s: string, d: nat, q: string)
    requires SuffixAt(s, d, q)
    ensures ReferencesRewritten(s, d) == ReferencesRewritten(q, 0)
  {
    ReferencesShift(s, d, q, 0, d);
  }

}
