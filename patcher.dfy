/**
 * fix_profile_generic.py: a maintenance script that adds the field
 * `use_compact_array_encoding: false,` after every `executed_time: 0,` in a Rust
 * source file.  It does so in two whole-string rewrites:
 *
 *   1. a blind literal `str.replace` of the anchor by anchor + newline + indent + field
 *      (line 22), and
 *   2. a greedy `re.sub` that rewrites every run of two or more copies of the field
 *      separated only by whitespace into a single copy (line 39).
 *
 * Both rewrites scan the text left to right as Python does: the leftmost match wins,
 * matches do not overlap, and scanning resumes just after a replaced match.  They are
 * written as functions of a scan position i into the unchanged input, and the
 * theorems are stated for any anchor, indent, field and whitespace class that satisfy
 * `Patterns`; `LiteralsArePatterns` shows that the script's own literals do.  Reading
 * and writing the file and the prints are not modelled.
 */
module ProfilePatcher {

  /** The literal that `str.replace` looks for. */
  const Anchor: string := "executed_time: 0,"
  /** The newline and twelve spaces the replacement puts before the field. */
  const Indent: string := "\n            "
  /** The field that is inserted, and whose duplicate runs the regex collapses. */
  const Field: string := "use_compact_array_encoding: false,"

  /**
   * Python's `\s` in a str pattern: the characters for which `str.isspace()` holds,
   * U+0009..U+000D, U+001C..U+0020, U+0085, U+00A0, U+1680, U+2000..U+200A, U+2028,
   * U+2029, U+202F, U+205F and U+3000.
   */
  const Whitespace: set<char> :=
    {'\U{9}', '\U{A}', '\U{B}', '\U{C}', '\U{D}', '\U{1C}', '\U{1D}', '\U{1E}', '\U{1F}', ' ',
     '\U{85}', '\U{A0}', '\U{1680}', '\U{2000}', '\U{2001}', '\U{2002}', '\U{2003}', '\U{2004}',
     '\U{2005}', '\U{2006}', '\U{2007}', '\U{2008}', '\U{2009}', '\U{200A}', '\U{2028}',
     '\U{2029}', '\U{202F}', '\U{205F}', '\U{3000}'}

  /** p occurs in s starting at index i. */
  predicate OccursAt(s: string, p: string, i: nat) {
    i + |p| <= |s| && MatchFrom(s, p, i, 0)
  }

  /** The characters of p from index k on are those of s from index i + k on. */
  predicate MatchFrom(s: string, p: string, i: nat, k: nat)
    requires i + |p| <= |s|
    decreases |p| - k
  {
    k >= |p| || (s[i + k] == p[k] && MatchFrom(s, p, i, k + 1))
  }

  predicate AllSpace(s: string, sp: set<char>) {
    forall k :: 0 <= k < |s| ==> s[k] in sp
  }

  /**
   * In any text that begins with lit, no occurrence of p starts at an index in
   * [from, |lit|): this is decided by the first two characters of p alone.
   */
  predicate NoStartFrom(lit: string, p: string, from: nat) {
    2 <= |p|
    && forall i :: from <= i < |lit| ==> lit[i] != p[0] || (i + 1 < |lit| && lit[i + 1] != p[1])
  }

  /** A field the collapse can work with: it starts with a non-space and cannot overlap itself. */
  predicate FieldOk(f: string, sp: set<char>) {
    2 <= |f| && f[0] !in sp && NoStartFrom(f, f, 1)
  }

  /** What the theorems need of the anchor a, the indent ind, the field f and the whitespace class sp. */
  predicate Patterns(a: string, ind: string, f: string, sp: set<char>) {
    FieldOk(f, sp) && 2 <= |a| <= |f| && a[0] !in sp && AllSpace(ind, sp)
    && NoStartFrom(a, a, 1) && NoStartFrom(a, f, 0) && NoStartFrom(f, a, 0)
    && (forall k :: 0 <= k < |f| ==> f[k] != a[1])
  }

  // ---------------------------------------------------------------------------
  // Step 1: the literal replace (line 22)
  // ---------------------------------------------------------------------------

  /** The occurrences of p that `str.replace` finds from index i on: non-overlapping, left to right. */
  function CountFrom(s: string, p: string, i: nat): nat
    requires |p| > 0 && i <= |s|
    decreases |s| - i
  {
    if i == |s| then 0
    else if OccursAt(s, p, i) then 1 + CountFrom(s, p, i + |p|)
    else CountFrom(s, p, i + 1)
  }

  /** What `s[i:].replace(p, r)` returns, for a non-empty p. */
  function ReplaceFrom(s: string, p: string, r: string, i: nat): (t: string)
    requires |p| > 0 && i <= |s|
    decreases |s| - i
  {
    if i == |s| then ""
    else if OccursAt(s, p, i) then r + ReplaceFrom(s, p, r, i + |p|)
    else [s[i]] + ReplaceFrom(s, p, r, i + 1)
  }

  function Count(s: string, p: string): nat
    requires |p| > 0
  {
    CountFrom(s, p, 0)
  }

  /** Python's `s.replace(p, r)` for a non-empty p. */
  function Replace(s: string, p: string, r: string): string
    requires |p| > 0
  {
    ReplaceFrom(s, p, r, 0)
  }

  /** Turns each r back into p, scanning left to right from index j of t; the inverse of Replace. */
  function UnreplaceFrom(t: string, p: string, r: string, j: nat): string
    requires |r| > 0 && j <= |t|
    decreases |t| - j
  {
    if j == |t| then ""
    else if OccursAt(t, r, j) then p + UnreplaceFrom(t, p, r, j + |r|)
    else [t[j]] + UnreplaceFrom(t, p, r, j + 1)
  }

  function Unreplace(t: string, p: string, r: string): string
    requires |r| > 0
  {
    UnreplaceFrom(t, p, r, 0)
  }

  /** Every occurrence of a is immediately followed by ins. */
  predicate AnchorsFollowed(t: string, a: string, ins: string) {
    forall i :: 0 <= i < |t| && OccursAt(t, a, i) ==> OccursAt(t, ins, i + |a|)
  }

  // ---------------------------------------------------------------------------
  // Step 2: the duplicate collapse (line 39)
  // ---------------------------------------------------------------------------

  /** Where a greedy `\s*` that starts at index i stops: the first index from i on that is not whitespace. */
  function SpaceEnd(s: string, sp: set<char>, i: nat): (j: nat)
    requires i <= |s|
    ensures i <= j <= |s|
    decreases |s| - i
  {
    if i < |s| && s[i] in sp then SpaceEnd(s, sp, i + 1) else i
  }

  /**
   * The pattern `(f\s*)+f` matches at index i: a copy of f starts there and, after
   * whitespace, another one.
   */
  predicate Duplicate(s: string, f: string, sp: set<char>, i: nat) {
    OccursAt(s, f, i) && OccursAt(s, f, SpaceEnd(s, sp, i + |f|))
  }

  /**
   * The end of the match: copies of f follow each other separated only by whitespace, and
   * the greedy pattern takes all of them, so the match ends just after the last copy (for
   * a field that does not start with whitespace, which the script's does not).
   */
  function RunEnd(s: string, f: string, sp: set<char>, i: nat): (j: nat)
    requires |f| > 0 && OccursAt(s, f, i)
    ensures i + |f| <= j <= |s|
    decreases |s| - i
  {
    var k := SpaceEnd(s, sp, i + |f|);
    if OccursAt(s, f, k) then RunEnd(s, f, sp, k) else i + |f|
  }

  /** What `re.sub(r'(f\s*)+f', f, s[i:])` returns: each run of two or more copies becomes one copy. */
  function CollapseFrom(s: string, f: string, sp: set<char>, i: nat): (r: string)
    requires |f| > 0 && i <= |s|
    ensures |r| <= |s| - i
    decreases |s| - i
  {
    if i == |s| then ""
    else if Duplicate(s, f, sp, i) then f + CollapseFrom(s, f, sp, RunEnd(s, f, sp, i))
    else [s[i]] + CollapseFrom(s, f, sp, i + 1)
  }

  function Collapse(s: string, f: string, sp: set<char>): string
    requires |f| > 0
  {
    CollapseFrom(s, f, sp, 0)
  }

  /** No index of t starts two copies of f separated only by whitespace. */
  predicate NoDuplicateRun(t: string, f: string, sp: set<char>) {
    forall i :: 0 <= i < |t| ==> !Duplicate(t, f, sp, i)
  }

  /** Replace every anchor by anchor + ind + f, then collapse duplicate runs of f. */
  function Rewrite(s: string, a: string, ind: string, f: string, sp: set<char>): string
    requires |a| > 0 && |f| > 0
  {
    Collapse(Replace(s, a, a + ind + f), f, sp)
  }

  /** A text the rewrite leaves unchanged: collapsed already, and every anchor carries its field. */
  predicate Clean(t: string, a: string, ind: string, f: string, sp: set<char>)
    requires |f| > 0
  {
    Collapse(t, f, sp) == t && AnchorsFollowed(t, a, ind + f)
  }

  /** The matches of the pattern `a\s*f` that `re.findall` reports from index i on. */
  function DiagnosticFrom(s: string, a: string, f: string, sp: set<char>, i: nat): nat
    requires |a| > 0 && i <= |s|
    decreases |s| - i
  {
    if i == |s| then 0
    else if OccursAt(s, a, i) && OccursAt(s, f, SpaceEnd(s, sp, i + |a|)) then
      1 + DiagnosticFrom(s, a, f, sp, SpaceEnd(s, sp, i + |a|) + |f|)
    else DiagnosticFrom(s, a, f, sp, i + 1)
  }

  // ---------------------------------------------------------------------------
  // The script itself
  // ---------------------------------------------------------------------------

  /** Line 22: every anchor gets the newline, the indent and the field after it. */
  function Insert(s: string): string {
    Replace(s, Anchor, Anchor + Indent + Field)
  }

  /** Lines 22 and 39 together: what the script writes back, given what it read. */
  function Patch(s: string): string {
    Rewrite(s, Anchor, Indent, Field, Whitespace)
  }

  /** Lines 11-12: the number of correct patterns the script reports before patching. */
  function DiagnosticCount(s: string): nat {
    DiagnosticFrom(s, Anchor, Field, Whitespace, 0)
  }

  // ---------------------------------------------------------------------------
  // Occurrences and whitespace under concatenation
  // ---------------------------------------------------------------------------

  lemma {:induction false} MatchFromIff(s: string, p: string, i: nat, k: nat)
    requires i + |p| <= |s| && k <= |p|
    ensures MatchFrom(s, p, i, k) <==> forall m :: k <= m < |p| ==> s[i + m] == p[m]
    decreases |p| - k
  {
    if k < |p| {
      MatchFromIff(s, p, i, k + 1);
    }
  }

  /** An occurrence, character by character. */
  lemma {:induction false} OccursAtIff(s: string, p: string, i: nat)
    ensures OccursAt(s, p, i) <==> i + |p| <= |s| && forall k :: 0 <= k < |p| ==> s[i + k] == p[k]
  {
    if i + |p| <= |s| {
      MatchFromIff(s, p, i, 0);
    }
  }

  lemma {:induction false} SliceJoin(s: string, i: nat, j: nat, k: nat)
    requires i <= j <= k <= |s|
    ensures s[i..j] + s[j..k] == s[i..k]
  {
  }

  lemma {:induction false} SliceCons(s: string, i: nat, j: nat)
    requires i < j <= |s|
    ensures [s[i]] + s[i + 1..j] == s[i..j]
  {
  }

  lemma {:induction false} SliceEmpty(s: string, i: nat)
    requires i <= |s|
    ensures s[i..i] == ""
  {
  }

  /** A text seen from the end of one of its prefixes. */
  lemma {:induction false} ShiftIndex(q: string, z: string, j: nat)
    requires j < |z|
    ensures (q + z)[|q| + j] == z[j]
  {
  }

  lemma {:induction false} OccursShift(q: string, z: string, p: string, j: nat)
    requires j <= |z|
    ensures OccursAt(q + z, p, |q| + j) <==> OccursAt(z, p, j)
  {
    OccursAtIff(q + z, p, |q| + j);
    OccursAtIff(z, p, j);
    forall m | j <= m < |z|
      ensures (q + z)[|q| + m] == z[m]
    {
      ShiftIndex(q, z, m);
    }
  }

  lemma {:induction false} OccursInPrefix(q: string, z: string, p: string, i: nat)
    requires OccursAt(q, p, i)
    ensures OccursAt(q + z, p, i)
  {
    OccursAtIff(q, p, i);
    OccursAtIff(q + z, p, i);
    forall k | 0 <= k < |p|
      ensures (q + z)[i + k] == p[k]
    {
      assert q[i + k] == p[k];
    }
  }

  lemma {:induction false} OccursFront(q: string, z: string)
    ensures OccursAt(q + z, q, 0)
  {
    OccursAt0(q);
    OccursInPrefix(q, z, q, 0);
  }

  lemma {:induction false} OccursAt0(q: string)
    ensures OccursAt(q, q, 0)
  {
    OccursAtIff(q, q, 0);
    forall k | 0 <= k < |q|
      ensures q[0 + k] == q[k]
    {
    }
  }

  /** An occurrence is the slice it covers. */
  lemma {:induction false} OccursSlice(s: string, p: string, i: nat)
    requires OccursAt(s, p, i)
    ensures s[i..i + |p|] == p
  {
    OccursAtIff(s, p, i);
    forall k | 0 <= k < |p|
      ensures s[i..i + |p|][k] == p[k]
    {
      assert s[i + k] == p[k];
    }
  }

  /** What a text that starts with lit shows at an index inside lit. */
  lemma {:induction false} NoStartInside(t: string, lit: string, p: string, from: nat, i: nat)
    requires OccursAt(t, lit, 0) && NoStartFrom(lit, p, from) && from <= i < |lit|
    ensures !OccursAt(t, p, i)
  {
    OccursAtIff(t, lit, 0);
    OccursAtIff(t, p, i);
    assert lit[i] != p[0] || (i + 1 < |lit| && lit[i + 1] != p[1]);
    assert t[0 + i] == lit[i];
    if i + 1 < |lit| {
      assert t[0 + (i + 1)] == lit[i + 1];
    }
  }

  /** No occurrence of p starts at an index in [from, |lit|) of a text that has lit at index n. */
  lemma {:induction false} NoStartAt(t: string, lit: string, p: string, from: nat, n: nat, i: nat)
    requires OccursAt(t, lit, n) && NoStartFrom(lit, p, from) && n + from <= i < n + |lit|
    ensures !OccursAt(t, p, i)
  {
    OccursAtIff(t, lit, n);
    OccursAtIff(t, p, i);
    var k := i - n;
    assert lit[k] != p[0] || (k + 1 < |lit| && lit[k + 1] != p[1]);
    assert t[n + k] == lit[k];
    if k + 1 < |lit| {
      assert t[n + (k + 1)] == lit[k + 1];
    }
  }

  lemma {:induction false} NoStartFromSpace(w: string, p: string, sp: set<char>)
    requires AllSpace(w, sp) && 2 <= |p| && p[0] !in sp
    ensures NoStartFrom(w, p, 0)
  {
  }

  lemma {:induction false} NoStartFromConcat(l1: string, l2: string, p: string, from: nat)
    requires NoStartFrom(l1, p, from) && NoStartFrom(l2, p, 0)
    ensures NoStartFrom(l1 + l2, p, from)
  {
    var lit := l1 + l2;
    forall i | from <= i < |lit|
      ensures lit[i] != p[0] || (i + 1 < |lit| && lit[i + 1] != p[1])
    {
      if i < |l1| {
        assert l1[i] != p[0] || (i + 1 < |l1| && l1[i + 1] != p[1]);
        assert lit[i] == l1[i];
        if i + 1 < |l1| {
          assert lit[i + 1] == l1[i + 1];
        } else if i + 1 < |lit| {
          var k := i + 1 - |l1|;
          assert k == 0;
          assert l2[k] != p[0] || (k + 1 < |l2| && l2[k + 1] != p[1]);
          assert lit[i + 1] == l2[0];
        }
      } else {
        var k := i - |l1|;
        assert l2[k] != p[0] || (k + 1 < |l2| && l2[k + 1] != p[1]);
        assert lit[i] == l2[k];
        if k + 1 < |l2| {
          assert lit[i + 1] == l2[k + 1];
        }
      }
    }
  }

  lemma {:induction false} SpaceEndShift(q: string, z: string, sp: set<char>, j: nat)
    requires j <= |z|
    ensures SpaceEnd(q + z, sp, |q| + j) == |q| + SpaceEnd(z, sp, j)
    decreases |z| - j
  {
    if j < |z| {
      ShiftIndex(q, z, j);
      SpaceEndShift(q, z, sp, j + 1);
    }
  }

  /** Whitespace before z is skipped as a whole. */
  lemma {:induction false} SpaceEndOver(w: string, z: string, sp: set<char>, j: nat)
    requires AllSpace(w, sp) && j <= |w|
    ensures SpaceEnd(w + z, sp, j) == |w| + SpaceEnd(z, sp, 0)
    decreases |w| - j
  {
    if j < |w| {
      assert (w + z)[j] == w[j];
      SpaceEndOver(w, z, sp, j + 1);
    } else {
      SpaceEndShift(w, z, sp, 0);
    }
  }

  /** Between i and SpaceEnd(s, sp, i) there is only whitespace, and after it a non-space or the end. */
  lemma {:induction false} SpaceEndFacts(s: string, sp: set<char>, i: nat)
    requires i <= |s|
    ensures AllSpace(s[i..SpaceEnd(s, sp, i)], sp)
    ensures SpaceEnd(s, sp, i) < |s| ==> s[SpaceEnd(s, sp, i)] !in sp
    decreases |s| - i
  {
    var e := SpaceEnd(s, sp, i);
    if i < |s| && s[i] in sp {
      SpaceEndFacts(s, sp, i + 1);
      forall k | 0 <= k < e - i
        ensures s[i..e][k] in sp
      {
        if k > 0 {
          assert s[i..e][k] == s[i + 1..e][k - 1];
        }
      }
    }
  }

  /** A non-space stops the whitespace at once. */
  lemma {:induction false} SpaceEndHere(s: string, sp: set<char>, i: nat)
    requires i < |s| && s[i] !in sp
    ensures SpaceEnd(s, sp, i) == i
  {
  }


  // Regrouping concatenations, kept apart so that the lemmas using them stay small.

  lemma {:induction false} Assoc(a: string, b: string, c: string)
    ensures a + b + c == a + (b + c)
  {
  }

  lemma {:induction false} RegroupDoubled(a: string, ind: string, f: string, w: string, z: string)
    ensures a + ind + f + w + f + z == (a + ind) + (f + w + f + z)
  {
  }

  lemma {:induction false} RegroupInsertion(a: string, ind: string, f: string, z: string)
    ensures (a + ind + f) + ((ind + f) + z) == a + ind + f + ind + f + z
  {
  }

  lemma {:induction false} RegroupEnd(a: string, ind: string, f: string, w: string)
    ensures (a + ind + f) + (w + f) == a + ind + f + w + f + ""
  {
  }

  /** An occurrence splits the rest of the text into itself and what follows it. */
  lemma {:induction false} OccursSplit(s: string, p: string, i: nat)
    requires OccursAt(s, p, i)
    ensures i + |p| <= |s| && s[i..] == p + s[i + |p|..]
  {
    OccursSlice(s, p, i);
    SliceJoin(s, i, i + |p|, |s|);
  }

  // ---------------------------------------------------------------------------
  // Both rewrites only look forward: a prefix does not change what they do after it
  // ---------------------------------------------------------------------------

  lemma {:induction false} CountShift(q: string, z: string, p: string, j: nat)
    requires |p| > 0 && j <= |z|
    ensures CountFrom(q + z, p, |q| + j) == CountFrom(z, p, j)
    decreases |z| - j
  {
    if j < |z| {
      OccursShift(q, z, p, j);
      if OccursAt(z, p, j) {
        CountShift(q, z, p, j + |p|);
      } else {
        CountShift(q, z, p, j + 1);
      }
    }
  }

  lemma {:induction false} ReplaceShift(q: string, z: string, p: string, r: string, j: nat)
    requires |p| > 0 && j <= |z|
    ensures ReplaceFrom(q + z, p, r, |q| + j) == ReplaceFrom(z, p, r, j)
    decreases |z| - j
  {
    if j < |z| {
      if OccursAt(z, p, j) {
        ReplaceShift(q, z, p, r, j + |p|);
        ReplaceShiftMatch(q, z, p, r, j);
      } else {
        ReplaceShift(q, z, p, r, j + 1);
        ReplaceShiftChar(q, z, p, r, j);
      }
    }
  }

  lemma {:induction false} ReplaceShiftMatch(q: string, z: string, p: string, r: string, j: nat)
    requires |p| > 0 && j < |z| && OccursAt(z, p, j)
    requires ReplaceFrom(q + z, p, r, |q| + j + |p|) == ReplaceFrom(z, p, r, j + |p|)
    ensures ReplaceFrom(q + z, p, r, |q| + j) == ReplaceFrom(z, p, r, j)
  {
    OccursShift(q, z, p, j);
  }

  lemma {:induction false} ReplaceShiftChar(q: string, z: string, p: string, r: string, j: nat)
    requires |p| > 0 && j < |z| && !OccursAt(z, p, j)
    requires ReplaceFrom(q + z, p, r, |q| + j + 1) == ReplaceFrom(z, p, r, j + 1)
    ensures ReplaceFrom(q + z, p, r, |q| + j) == ReplaceFrom(z, p, r, j)
  {
    OccursShift(q, z, p, j);
    ShiftIndex(q, z, j);
  }

  lemma {:induction false} UnreplaceShift(q: string, z: string, p: string, r: string, j: nat)
    requires |r| > 0 && j <= |z|
    ensures UnreplaceFrom(q + z, p, r, |q| + j) == UnreplaceFrom(z, p, r, j)
    decreases |z| - j
  {
    if j < |z| {
      OccursShift(q, z, r, j);
      if OccursAt(z, r, j) {
        UnreplaceShift(q, z, p, r, j + |r|);
        assert UnreplaceFrom(q + z, p, r, |q| + j) == p + UnreplaceFrom(z, p, r, j + |r|);
      } else {
        ShiftIndex(q, z, j);
        UnreplaceShift(q, z, p, r, j + 1);
        assert UnreplaceFrom(q + z, p, r, |q| + j) == [z[j]] + UnreplaceFrom(z, p, r, j + 1);
      }
    }
  }

  lemma {:induction false} DuplicateShift(q: string, z: string, f: string, sp: set<char>, j: nat)
    requires j <= |z|
    ensures Duplicate(q + z, f, sp, |q| + j) <==> Duplicate(z, f, sp, j)
  {
    OccursShift(q, z, f, j);
    if OccursAt(z, f, j) {
      SpaceEndShift(q, z, sp, j + |f|);
      OccursShift(q, z, f, SpaceEnd(z, sp, j + |f|));
    }
  }

  lemma {:induction false} RunEndShift(q: string, z: string, f: string, sp: set<char>, j: nat)
    requires |f| > 0 && OccursAt(z, f, j)
    ensures OccursAt(q + z, f, |q| + j)
    ensures RunEnd(q + z, f, sp, |q| + j) == |q| + RunEnd(z, f, sp, j)
    decreases |z| - j
  {
    OccursShift(q, z, f, j);
    var k := SpaceEnd(z, sp, j + |f|);
    if OccursAt(z, f, k) {
      RunEndShift(q, z, f, sp, k);
    }
    RunEndShiftStep(q, z, f, sp, j);
  }

  /** One step of RunEndShift, given its result at the next copy. */
  lemma {:induction false} RunEndShiftStep(q: string, z: string, f: string, sp: set<char>, j: nat)
    requires |f| > 0 && OccursAt(z, f, j) && OccursAt(q + z, f, |q| + j)
    requires OccursAt(z, f, SpaceEnd(z, sp, j + |f|)) ==>
      OccursAt(q + z, f, |q| + SpaceEnd(z, sp, j + |f|)) &&
      RunEnd(q + z, f, sp, |q| + SpaceEnd(z, sp, j + |f|)) == |q| + RunEnd(z, f, sp, SpaceEnd(z, sp, j + |f|))
    ensures RunEnd(q + z, f, sp, |q| + j) == |q| + RunEnd(z, f, sp, j)
  {
    var k := SpaceEnd(z, sp, j + |f|);
    SpaceEndShift(q, z, sp, j + |f|);
    assert SpaceEnd(q + z, sp, |q| + j + |f|) == |q| + k;
    OccursShift(q, z, f, k);
  }

  lemma {:induction false} CollapseShift(q: string, z: string, f: string, sp: set<char>, j: nat)
    requires |f| > 0 && j <= |z|
    ensures CollapseFrom(q + z, f, sp, |q| + j) == CollapseFrom(z, f, sp, j)
    decreases |z| - j
  {
    if j < |z| {
      if Duplicate(z, f, sp, j) {
        CollapseShift(q, z, f, sp, RunEnd(z, f, sp, j));
        CollapseShiftRun(q, z, f, sp, j);
      } else {
        CollapseShift(q, z, f, sp, j + 1);
        CollapseShiftChar(q, z, f, sp, j);
      }
    }
  }

  lemma {:induction false} CollapseShiftRun(q: string, z: string, f: string, sp: set<char>, j: nat)
    requires |f| > 0 && j < |z| && Duplicate(z, f, sp, j)
    requires CollapseFrom(q + z, f, sp, |q| + RunEnd(z, f, sp, j)) == CollapseFrom(z, f, sp, RunEnd(z, f, sp, j))
    ensures CollapseFrom(q + z, f, sp, |q| + j) == CollapseFrom(z, f, sp, j)
  {
    DuplicateShift(q, z, f, sp, j);
    RunEndShift(q, z, f, sp, j);
  }

  lemma {:induction false} CollapseShiftChar(q: string, z: string, f: string, sp: set<char>, j: nat)
    requires |f| > 0 && j < |z| && !Duplicate(z, f, sp, j)
    requires CollapseFrom(q + z, f, sp, |q| + j + 1) == CollapseFrom(z, f, sp, j + 1)
    ensures CollapseFrom(q + z, f, sp, |q| + j) == CollapseFrom(z, f, sp, j)
  {
    DuplicateShift(q, z, f, sp, j);
    ShiftIndex(q, z, j);
  }

  lemma {:induction false} OccursCons(c: char, z: string, u: string)
    ensures OccursAt([c] + z, u, 0) <==> |u| == 0 || (u[0] == c && OccursAt(z, u[1..], 0))
  {
    OccursAtIff([c] + z, u, 0);
    if |u| > 0 {
      OccursAtIff(z, u[1..], 0);
      if OccursAt([c] + z, u, 0) {
        forall k | 0 <= k < |u| - 1
          ensures z[0 + k] == u[1..][k]
        {
          assert ([c] + z)[0 + (k + 1)] == u[k + 1];
        }
      }
      if u[0] == c && OccursAt(z, u[1..], 0) {
        forall k | 0 <= k < |u|
          ensures ([c] + z)[0 + k] == u[k]
        {
          if k > 0 {
            assert z[0 + (k - 1)] == u[1..][k - 1];
          }
        }
      }
    }
  }

  lemma {:induction false} OccursNext(s: string, u: string, i: nat)
    requires i <= |s|
    ensures OccursAt(s, u, i) <==> |u| == 0 || (i < |s| && s[i] == u[0] && OccursAt(s, u[1..], i + 1))
  {
    OccursAtIff(s, u, i);
    if |u| > 0 {
      OccursAtIff(s, u[1..], i + 1);
      if OccursAt(s, u, i) {
        forall k | 0 <= k < |u| - 1
          ensures s[i + 1 + k] == u[1..][k]
        {
          assert s[i + (k + 1)] == u[k + 1];
        }
      }
      if i < |s| && s[i] == u[0] && OccursAt(s, u[1..], i + 1) {
        forall k | 0 <= k < |u|
          ensures s[i + k] == u[k]
        {
          if k > 0 {
            assert s[i + 1 + (k - 1)] == u[1..][k - 1];
          }
        }
      }
    }
  }

  /** A text that starts with r, where r starts with p, starts with p. */
  lemma {:induction false} OccursTrans(t: string, r: string, p: string)
    ensures OccursAt(t, r, 0) && OccursAt(r, p, 0) ==> OccursAt(t, p, 0)
  {
    OccursAtIff(t, r, 0);
    OccursAtIff(r, p, 0);
    OccursAtIff(t, p, 0);
    if OccursAt(t, r, 0) && OccursAt(r, p, 0) {
      forall k | 0 <= k < |p|
        ensures t[0 + k] == p[k]
      {
        assert t[0 + k] == r[k];
        assert r[0 + k] == p[k];
      }
    }
  }

  // ---------------------------------------------------------------------------
  // The literal replace
  // ---------------------------------------------------------------------------

  /** Each replaced occurrence changes the length by |r| - |p|. */
  lemma {:induction false} ReplaceLength(s: string, p: string, r: string, i: nat)
    requires |p| > 0 && i <= |s|
    ensures |ReplaceFrom(s, p, r, i)| == |s| - i + CountFrom(s, p, i) * (|r| - |p|)
    decreases |s| - i
  {
    if i < |s| {
      if OccursAt(s, p, i) {
        ReplaceLength(s, p, r, i + |p|);
        ReplaceLengthMatch(s, p, r, i);
      } else {
        ReplaceLength(s, p, r, i + 1);
      }
    }
  }

  lemma {:induction false} ReplaceLengthMatch(s: string, p: string, r: string, i: nat)
    requires |p| > 0 && i < |s| && OccursAt(s, p, i)
    requires |ReplaceFrom(s, p, r, i + |p|)| == |s| - (i + |p|) + CountFrom(s, p, i + |p|) * (|r| - |p|)
    ensures |ReplaceFrom(s, p, r, i)| == |s| - i + CountFrom(s, p, i) * (|r| - |p|)
  {
    var c := CountFrom(s, p, i + |p|);
    var d := |r| - |p|;
    assert CountFrom(s, p, i) == c + 1;
    assert |ReplaceFrom(s, p, r, i)| == |r| + |ReplaceFrom(s, p, r, i + |p|)|;
    MulSucc(c, d);
  }

  lemma {:induction false} MulSucc(c: int, d: int)
    ensures (c + 1) * d == c * d + d
  {
  }

  /** Where p does not occur, the replace copies the text. */
  lemma {:induction false} ReplaceCopy(s: string, p: string, r: string, i: nat, j: nat)
    requires |p| > 0 && i <= j <= |s|
    requires forall k :: i <= k < j ==> !OccursAt(s, p, k)
    ensures ReplaceFrom(s, p, r, i) == s[i..j] + ReplaceFrom(s, p, r, j)
    ensures CountFrom(s, p, i) == CountFrom(s, p, j)
    decreases j - i
  {
    if i < j {
      assert !OccursAt(s, p, i);
      ReplaceCopy(s, p, r, i + 1, j);
      SliceCons(s, i, j);
      assert [s[i]] + (s[i + 1..j] + ReplaceFrom(s, p, r, j)) == ([s[i]] + s[i + 1..j]) + ReplaceFrom(s, p, r, j);
    }
  }

  /** A stretch u of the text in which p never starts is copied by the replace. */
  lemma {:induction false} ReplaceKeeps(s: string, p: string, r: string, u: string, i: nat)
    requires |p| > 0 && OccursAt(s, u, i)
    requires forall k :: i <= k < i + |u| ==> !OccursAt(s, p, k)
    ensures i + |u| <= |s|
    ensures ReplaceFrom(s, p, r, i) == u + ReplaceFrom(s, p, r, i + |u|)
    ensures CountFrom(s, p, i) == CountFrom(s, p, i + |u|)
  {
    ReplaceCopy(s, p, r, i, i + |u|);
    OccursSlice(s, u, i);
  }

  /** At an occurrence, the replacement shows what the text showed, for a short enough u. */
  lemma {:induction false} ReplaceHeadMatch(s: string, p: string, r: string, u: string, i: nat)
    requires |p| > 0 && OccursAt(r, p, 0) && OccursAt(s, p, i)
    requires |u| <= |p| || (|p| >= 2 && forall k :: 0 <= k < |u| ==> u[k] != p[1])
    ensures OccursAt(ReplaceFrom(s, p, r, i), u, 0) <==> OccursAt(s, u, i)
  {
    var t := ReplaceFrom(s, p, r, i);
    assert t == r + ReplaceFrom(s, p, r, i + |p|);
    OccursInPrefix(r, ReplaceFrom(s, p, r, i + |p|), p, 0);
    OccursAtIff(t, p, 0);
    OccursAtIff(s, p, i);
    OccursAtIff(t, u, 0);
    OccursAtIff(s, u, i);
    if |u| <= |p| {
      forall k | 0 <= k < |u|
        ensures t[k] == s[i + k]
      {
        assert t[0 + k] == p[k];
      }
    } else {
      assert u[1] != p[1];
      assert t[0 + 1] == p[1] && s[i + 1] == p[1];
    }
  }

  /**
   * The replace does not change whether a text shows u at the scan position, when u is
   * no longer than p or never contains p's second character.
   */
  lemma {:induction false} ReplaceHead(s: string, p: string, r: string, u: string, i: nat)
    requires |p| > 0 && OccursAt(r, p, 0) && i <= |s|
    requires |u| <= |p| || (|p| >= 2 && forall k :: 0 <= k < |u| ==> u[k] != p[1])
    ensures OccursAt(ReplaceFrom(s, p, r, i), u, 0) <==> OccursAt(s, u, i)
    decreases |u|
  {
    var t := ReplaceFrom(s, p, r, i);
    if i == |s| {
      OccursAtIff(t, u, 0);
      OccursAtIff(s, u, i);
    } else if OccursAt(s, p, i) {
      ReplaceHeadMatch(s, p, r, u, i);
    } else if |u| > 0 {
      var z := ReplaceFrom(s, p, r, i + 1);
      assert t == [s[i]] + z;
      OccursCons(s[i], z, u);
      OccursNext(s, u, i);
      ReplaceHead(s, p, r, u[1..], i + 1);
    } else {
      OccursAtIff(t, u, 0);
      OccursAtIff(s, u, i);
    }
  }

  /** Undoing the replace after a match gives back the occurrence and what follows. */
  lemma {:induction false} UnreplaceMatch(s: string, p: string, r: string, i: nat)
    requires |p| > 0 && OccursAt(r, p, 0) && OccursAt(s, p, i)
    requires UnreplaceFrom(ReplaceFrom(s, p, r, i + |p|), p, r, 0) == s[i + |p|..]
    ensures UnreplaceFrom(ReplaceFrom(s, p, r, i), p, r, 0) == s[i..]
  {
    var z := ReplaceFrom(s, p, r, i + |p|);
    assert ReplaceFrom(s, p, r, i) == r + z;
    OccursFront(r, z);
    UnreplaceShift(r, z, p, r, 0);
    assert UnreplaceFrom(r + z, p, r, 0) == p + UnreplaceFrom(r + z, p, r, |r| + 0);
    OccursSlice(s, p, i);
    SliceJoin(s, i, i + |p|, |s|);
  }

  /** Undoing the replace where nothing matched gives back the character and what follows. */
  lemma {:induction false} UnreplaceChar(s: string, p: string, r: string, i: nat)
    requires |p| > 0 && OccursAt(r, p, 0) && i < |s| && !OccursAt(s, p, i)
    requires UnreplaceFrom(ReplaceFrom(s, p, r, i + 1), p, r, 0) == s[i + 1..]
    ensures UnreplaceFrom(ReplaceFrom(s, p, r, i), p, r, 0) == s[i..]
  {
    var z := ReplaceFrom(s, p, r, i + 1);
    var t := ReplaceFrom(s, p, r, i);
    assert t == [s[i]] + z;
    ReplaceHead(s, p, r, p, i);
    OccursTrans(t, r, p);
    UnreplaceShift([s[i]], z, p, r, 0);
    assert UnreplaceFrom(t, p, r, 0) == [s[i]] + UnreplaceFrom(t, p, r, |[s[i]]| + 0);
    SliceCons(s, i, |s|);
  }

  /** Turning every r back into p undoes the replace, when r starts with p. */
  lemma {:induction false} UnreplaceReplace(s: string, p: string, r: string, i: nat)
    requires |p| > 0 && OccursAt(r, p, 0) && i <= |s|
    ensures UnreplaceFrom(ReplaceFrom(s, p, r, i), p, r, 0) == s[i..]
    decreases |s| - i
  {
    if i == |s| {
    } else if OccursAt(s, p, i) {
      UnreplaceReplace(s, p, r, i + |p|);
      UnreplaceMatch(s, p, r, i);
    } else {
      UnreplaceReplace(s, p, r, i + 1);
      UnreplaceChar(s, p, r, i);
    }
  }

  // ---------------------------------------------------------------------------
  // The duplicate collapse
  // ---------------------------------------------------------------------------

  /** A run starting at a copy that is not a duplicate: the collapse shows the copy as it is. */
  lemma {:induction false} CollapseHeadRun(s: string, f: string, sp: set<char>, u: string, i: nat)
    requires |f| > 0 && i < |s| && Duplicate(s, f, sp, i) && |u| <= |f|
    ensures OccursAt(CollapseFrom(s, f, sp, i), u, 0) <==> OccursAt(s, u, i)
  {
    var t := CollapseFrom(s, f, sp, i);
    assert t == f + CollapseFrom(s, f, sp, RunEnd(s, f, sp, i));
    OccursFront(f, CollapseFrom(s, f, sp, RunEnd(s, f, sp, i)));
    OccursAtIff(t, f, 0);
    OccursAtIff(s, f, i);
    OccursAtIff(t, u, 0);
    OccursAtIff(s, u, i);
    forall k | 0 <= k < |u|
      ensures t[k] == s[i + k]
    {
      assert t[0 + k] == f[k];
    }
  }

  /** The collapse does not change what a text shows at the scan position, up to the length of f. */
  lemma {:induction false} CollapseHead(s: string, f: string, sp: set<char>, u: string, i: nat)
    requires |f| > 0 && i <= |s| && |u| <= |f|
    ensures OccursAt(CollapseFrom(s, f, sp, i), u, 0) <==> OccursAt(s, u, i)
    decreases |u|
  {
    var t := CollapseFrom(s, f, sp, i);
    if i == |s| || |u| == 0 {
      OccursAtIff(t, u, 0);
      OccursAtIff(s, u, i);
    } else if Duplicate(s, f, sp, i) {
      CollapseHeadRun(s, f, sp, u, i);
    } else {
      var z := CollapseFrom(s, f, sp, i + 1);
      assert t == [s[i]] + z;
      OccursCons(s[i], z, u);
      OccursNext(s, u, i);
      CollapseHead(s, f, sp, u[1..], i + 1);
    }
  }

  /** The first character survives the collapse. */
  lemma {:induction false} CollapseFirst(s: string, f: string, sp: set<char>, i: nat)
    requires |f| > 0 && i < |s|
    ensures |CollapseFrom(s, f, sp, i)| > 0 && CollapseFrom(s, f, sp, i)[0] == s[i]
  {
    CollapseHead(s, f, sp, [s[i]], i);
    OccursAtIff(s, [s[i]], i);
    OccursAtIff(CollapseFrom(s, f, sp, i), [s[i]], 0);
  }

  /** Where no duplicate run starts, the collapse copies the text. */
  lemma {:induction false} CollapseCopy(s: string, f: string, sp: set<char>, i: nat, j: nat)
    requires |f| > 0 && i <= j <= |s|
    requires forall k :: i <= k < j ==> !Duplicate(s, f, sp, k)
    ensures CollapseFrom(s, f, sp, i) == s[i..j] + CollapseFrom(s, f, sp, j)
    decreases j - i
  {
    if i < j {
      assert !Duplicate(s, f, sp, i);
      CollapseCopy(s, f, sp, i + 1, j);
      SliceCons(s, i, j);
      assert [s[i]] + (s[i + 1..j] + CollapseFrom(s, f, sp, j)) == ([s[i]] + s[i + 1..j]) + CollapseFrom(s, f, sp, j);
    }
  }

  /** A literal in which f cannot start is copied by the collapse. */
  lemma {:induction false} CollapseLit(s: string, lit: string, f: string, sp: set<char>, i: nat)
    requires |f| > 0 && OccursAt(s, lit, i) && NoStartFrom(lit, f, 0)
    ensures CollapseFrom(s, f, sp, i) == lit + CollapseFrom(s, f, sp, i + |lit|)
  {
    forall k | i <= k < i + |lit|
      ensures !Duplicate(s, f, sp, k)
    {
      NoStartAt(s, lit, f, 0, i, k);
    }
    CollapseCopy(s, f, sp, i, i + |lit|);
    OccursSlice(s, lit, i);
  }

  /** A copy of f that no other copy follows is kept as it is. */
  lemma {:induction false} CollapseLone(s: string, f: string, sp: set<char>, i: nat)
    requires FieldOk(f, sp) && OccursAt(s, f, i) && !Duplicate(s, f, sp, i)
    ensures CollapseFrom(s, f, sp, i) == f + CollapseFrom(s, f, sp, i + |f|)
  {
    forall k | i <= k < i + |f|
      ensures !Duplicate(s, f, sp, k)
    {
      if k > i {
        NoStartAt(s, f, f, 1, i, k);
      }
    }
    CollapseCopy(s, f, sp, i, i + |f|);
    OccursSlice(s, f, i);
  }

  /** Whitespace is skipped up to the first index that is not whitespace. */
  lemma {:induction false} SpaceEndSkip(s: string, sp: set<char>, i: nat, n: nat)
    requires i <= n <= |s| && forall k :: i <= k < n ==> s[k] in sp
    ensures SpaceEnd(s, sp, i) == SpaceEnd(s, sp, n)
    decreases n - i
  {
    if i < n {
      SpaceEndSkip(s, sp, i + 1, n);
    }
  }

  /** Whitespace w at index i of s is skipped as a whole. */
  lemma {:induction false} SpaceEndAt(s: string, w: string, sp: set<char>, i: nat)
    requires OccursAt(s, w, i) && AllSpace(w, sp)
    ensures SpaceEnd(s, sp, i) == SpaceEnd(s, sp, i + |w|)
  {
    OccursAtIff(s, w, i);
    forall k | i <= k < i + |w|
      ensures s[k] in sp
    {
      assert s[i + (k - i)] == w[k - i];
    }
    SpaceEndSkip(s, sp, i, i + |w|);
  }

  /** Where a text shows f after whitespace, so does its collapse, and the other way round. */
  lemma {:induction false} CollapseAfterSpace(s: string, f: string, sp: set<char>, e: nat)
    requires FieldOk(f, sp) && e <= |s|
    ensures OccursAt(CollapseFrom(s, f, sp, e), f, SpaceEnd(CollapseFrom(s, f, sp, e), sp, 0))
        <==> OccursAt(s, f, SpaceEnd(s, sp, e))
  {
    var e2 := SpaceEnd(s, sp, e);
    SpaceEndFacts(s, sp, e);
    forall k | e <= k < e2
      ensures !Duplicate(s, f, sp, k)
    {
      assert s[e..e2][k - e] == s[k];
      OccursAtIff(s, f, k);
    }
    CollapseCopy(s, f, sp, e, e2);
    var w := s[e..e2];
    var c2 := CollapseFrom(s, f, sp, e2);
    SpaceEndOver(w, c2, sp, 0);
    if e2 < |s| {
      CollapseFirst(s, f, sp, e2);
      SpaceEndHere(c2, sp, 0);
    }
    OccursShift(w, c2, f, 0);
    CollapseHead(s, f, sp, f, e2);
  }

  /** A text that starts with f has a duplicate there exactly when f follows again after whitespace. */
  lemma {:induction false} DuplicateFront(f: string, z: string, sp: set<char>)
    requires |f| > 0
    ensures Duplicate(f + z, f, sp, 0) <==> OccursAt(z, f, SpaceEnd(z, sp, 0))
  {
    OccursFront(f, z);
    SpaceEndShift(f, z, sp, 0);
    OccursShift(f, z, f, SpaceEnd(z, sp, 0));
  }

  /** The greedy match takes every copy: no copy of f follows the end of a run after whitespace. */
  lemma {:induction false} RunEndMaximal(s: string, f: string, sp: set<char>, i: nat)
    requires |f| > 0 && OccursAt(s, f, i)
    ensures !OccursAt(s, f, SpaceEnd(s, sp, RunEnd(s, f, sp, i)))
    decreases |s| - i
  {
    var k := SpaceEnd(s, sp, i + |f|);
    if OccursAt(s, f, k) {
      RunEndMaximal(s, f, sp, k);
    }
  }

  /** The collapse never starts with a duplicate run. */
  lemma {:induction false} CollapseStartsClean(s: string, f: string, sp: set<char>, i: nat)
    requires FieldOk(f, sp) && i <= |s|
    ensures !Duplicate(CollapseFrom(s, f, sp, i), f, sp, 0)
  {
    if i < |s| {
      if Duplicate(s, f, sp, i) {
        CollapseStartsCleanRun(s, f, sp, i);
      } else if OccursAt(s, f, i) {
        CollapseStartsCleanLone(s, f, sp, i);
      } else {
        CollapseHead(s, f, sp, f, i);
      }
    }
  }

  lemma {:induction false} CollapseStartsCleanRun(s: string, f: string, sp: set<char>, i: nat)
    requires FieldOk(f, sp) && i < |s| && Duplicate(s, f, sp, i)
    ensures !Duplicate(CollapseFrom(s, f, sp, i), f, sp, 0)
  {
    var e := RunEnd(s, f, sp, i);
    assert CollapseFrom(s, f, sp, i) == f + CollapseFrom(s, f, sp, e);
    DuplicateFront(f, CollapseFrom(s, f, sp, e), sp);
    CollapseAfterSpace(s, f, sp, e);
    RunEndMaximal(s, f, sp, i);
  }

  lemma {:induction false} CollapseStartsCleanLone(s: string, f: string, sp: set<char>, i: nat)
    requires FieldOk(f, sp) && i < |s| && OccursAt(s, f, i) && !Duplicate(s, f, sp, i)
    ensures !Duplicate(CollapseFrom(s, f, sp, i), f, sp, 0)
  {
    CollapseLone(s, f, sp, i);
    DuplicateFront(f, CollapseFrom(s, f, sp, i + |f|), sp);
    CollapseAfterSpace(s, f, sp, i + |f|);
  }

  lemma {:induction false} NoDuplicatePrepend(q: string, z: string, f: string, sp: set<char>)
    requires NoDuplicateRun(z, f, sp)
    requires forall k :: 0 <= k < |q| ==> !Duplicate(q + z, f, sp, k)
    ensures NoDuplicateRun(q + z, f, sp)
  {
    forall k | |q| <= k < |q + z|
      ensures !Duplicate(q + z, f, sp, k)
    {
      DuplicateShift(q, z, f, sp, k - |q|);
    }
  }

  /** The collapse leaves no duplicate run anywhere. */
  lemma {:induction false} CollapseHasNoDuplicate(s: string, f: string, sp: set<char>, i: nat)
    requires FieldOk(f, sp) && i <= |s|
    ensures NoDuplicateRun(CollapseFrom(s, f, sp, i), f, sp)
    decreases |s| - i
  {
    var t := CollapseFrom(s, f, sp, i);
    if i < |s| {
      CollapseStartsClean(s, f, sp, i);
      if Duplicate(s, f, sp, i) {
        var z := CollapseFrom(s, f, sp, RunEnd(s, f, sp, i));
        CollapseHasNoDuplicate(s, f, sp, RunEnd(s, f, sp, i));
        assert t == f + z;
        OccursFront(f, z);
        forall k | 0 < k < |f|
          ensures !Duplicate(f + z, f, sp, k)
        {
          NoStartInside(f + z, f, f, 1, k);
        }
        NoDuplicatePrepend(f, z, f, sp);
      } else {
        var z := CollapseFrom(s, f, sp, i + 1);
        CollapseHasNoDuplicate(s, f, sp, i + 1);
        assert t == [s[i]] + z;
        NoDuplicatePrepend([s[i]], z, f, sp);
      }
    }
  }

  /** A text without duplicate runs is its own collapse. */
  lemma {:induction false} CollapseFixed(t: string, f: string, sp: set<char>, i: nat)
    requires |f| > 0 && i <= |t| && NoDuplicateRun(t, f, sp)
    ensures CollapseFrom(t, f, sp, i) == t[i..]
  {
    CollapseCopy(t, f, sp, i, |t|);
  }

  /** A duplicate run at or after i makes the collapse strictly shorter than the text it reads. */
  lemma {:induction false} CollapseShorter(s: string, f: string, sp: set<char>, i: nat, k: nat)
    requires |f| > 0 && i <= k < |s| && Duplicate(s, f, sp, k)
    ensures |CollapseFrom(s, f, sp, i)| < |s| - i
    decreases |s| - i
  {
    if !Duplicate(s, f, sp, i) {
      CollapseShorter(s, f, sp, i + 1, k);
    }
  }

  /** The collapse leaves a text unchanged exactly when the text has no duplicate run. */
  lemma {:induction false} CollapseFixedIffNoDuplicate(t: string, f: string, sp: set<char>)
    requires |f| > 0
    ensures Collapse(t, f, sp) == t <==> NoDuplicateRun(t, f, sp)
  {
    if NoDuplicateRun(t, f, sp) {
      CollapseFixed(t, f, sp, 0);
    } else {
      var k :| 0 <= k < |t| && Duplicate(t, f, sp, k);
      CollapseShorter(t, f, sp, 0, k);
    }
  }

  /** Collapsing twice is collapsing once. */
  lemma {:induction false} CollapseIdempotent(s: string, f: string, sp: set<char>)
    requires FieldOk(f, sp)
    ensures Collapse(Collapse(s, f, sp), f, sp) == Collapse(s, f, sp)
  {
    CollapseHasNoDuplicate(s, f, sp, 0);
    CollapseFixed(Collapse(s, f, sp), f, sp, 0);
  }

  // ---------------------------------------------------------------------------
  // Anchors and the text that follows them
  // ---------------------------------------------------------------------------

  lemma {:induction false} OccursJoin(s: string, p: string, q: string, i: nat)
    ensures OccursAt(s, p + q, i) <==> OccursAt(s, p, i) && OccursAt(s, q, i + |p|)
  {
    OccursAtIff(s, p + q, i);
    OccursAtIff(s, p, i);
    OccursAtIff(s, q, i + |p|);
    if OccursAt(s, p, i) && OccursAt(s, q, i + |p|) {
      forall k | 0 <= k < |p + q|
        ensures s[i + k] == (p + q)[k]
      {
        if k >= |p| {
          assert s[i + |p| + (k - |p|)] == q[k - |p|];
        }
      }
    }
    if OccursAt(s, p + q, i) {
      forall k | 0 <= k < |p|
        ensures s[i + k] == p[k]
      {
        assert s[i + k] == (p + q)[k];
      }
      forall k | 0 <= k < |q|
        ensures s[i + |p| + k] == q[k]
      {
        assert s[i + (|p| + k)] == (p + q)[|p| + k];
      }
    }
  }

  /** A text is followed by itself. */
  lemma {:induction false} OccursAfter(q: string, z: string)
    ensures OccursAt(q + z, z, |q|)
  {
    OccursAt0(z);
    OccursShift(q, z, z, 0);
  }

  /**
   * Anchors stay followed when text goes in front, as long as every anchor that starts
   * in the new text is followed too.
   */
  lemma {:induction false} AnchorsFollowedPrepend(q: string, z: string, a: string, ins: string)
    requires AnchorsFollowed(z, a, ins)
    requires forall k :: 0 <= k < |q| && OccursAt(q + z, a, k) ==> OccursAt(q + z, ins, k + |a|)
    ensures AnchorsFollowed(q + z, a, ins)
  {
    forall k | |q| <= k < |q + z| && OccursAt(q + z, a, k)
      ensures OccursAt(q + z, ins, k + |a|)
    {
      OccursShift(q, z, a, k - |q|);
      OccursShift(q, z, ins, k - |q| + |a|);
    }
  }

  /** What the conditions on the literals give for the inserted text a + ind + f. */
  lemma {:induction false} InsertionFacts(a: string, ind: string, f: string, sp: set<char>)
    requires Patterns(a, ind, f, sp)
    ensures a + ind + f == a + (ind + f)
    ensures OccursAt(a + ind + f, a, 0)
    ensures OccursAt(a + ind + f, ind + f, |a|)
    ensures NoStartFrom(ind + f, a, 0)
    ensures NoStartFrom(a + ind + f, a, 1)
    ensures NoStartFrom(a + ind, f, 0)
  {
    OccursFront(a, ind + f);
    OccursAfter(a, ind + f);
    NoStartFromSpace(ind, a, sp);
    NoStartFromConcat(ind, f, a, 0);
    NoStartFromConcat(a, ind + f, a, 1);
    NoStartFromSpace(ind, f, sp);
    NoStartFromConcat(a, ind, f, 0);
  }

  /** After the replace, every anchor is followed by the indent and the field. */
  lemma {:induction false} ReplaceAnchorsFollowed(s: string, a: string, ind: string, f: string, sp: set<char>, i: nat)
    requires Patterns(a, ind, f, sp) && i <= |s|
    ensures AnchorsFollowed(ReplaceFrom(s, a, a + ind + f, i), a, ind + f)
    decreases |s| - i
  {
    var r := a + ind + f;
    InsertionFacts(a, ind, f, sp);
    if i < |s| {
      if OccursAt(s, a, i) {
        var z := ReplaceFrom(s, a, r, i + |a|);
        ReplaceAnchorsFollowed(s, a, ind, f, sp, i + |a|);
        assert ReplaceFrom(s, a, r, i) == r + z;
        OccursFront(r, z);
        OccursInPrefix(r, z, ind + f, |a|);
        forall k | 0 < k < |r|
          ensures !OccursAt(r + z, a, k)
        {
          NoStartInside(r + z, r, a, 1, k);
        }
        AnchorsFollowedPrepend(r, z, a, ind + f);
      } else {
        var z := ReplaceFrom(s, a, r, i + 1);
        ReplaceAnchorsFollowed(s, a, ind, f, sp, i + 1);
        assert ReplaceFrom(s, a, r, i) == [s[i]] + z;
        ReplaceHead(s, a, r, a, i);
        AnchorsFollowedPrepend([s[i]], z, a, ind + f);
      }
    }
  }

  /** An anchor that carries the indent and the field keeps them through the collapse. */
  lemma {:induction false} CollapseFollowedAt(x: string, a: string, ind: string, f: string, sp: set<char>, i: nat)
    requires Patterns(a, ind, f, sp) && AnchorsFollowed(x, a, ind + f) && i <= |x|
    requires OccursAt(CollapseFrom(x, f, sp, i), a, 0)
    ensures OccursAt(CollapseFrom(x, f, sp, i), ind + f, |a|)
  {
    InsertionFacts(a, ind, f, sp);
    CollapseHead(x, f, sp, a, i);
    OccursJoin(x, ind, f, i + |a|);
    OccursJoin(x, a, ind, i);
    var m := i + |a| + |ind|;
    var c := CollapseFrom(x, f, sp, m);
    CollapseLit(x, a + ind, f, sp, i);
    CollapseHead(x, f, sp, f, m);
    OccursShift(a + ind, c, f, 0);
    OccursAfter(a, ind);
    OccursInPrefix(a + ind, c, ind, |a|);
    OccursJoin(CollapseFrom(x, f, sp, i), ind, f, |a|);
  }

  /** The collapse keeps every anchor followed by the indent and the field. */
  lemma {:induction false} CollapseAnchorsFollowed(x: string, a: string, ind: string, f: string, sp: set<char>, i: nat)
    requires Patterns(a, ind, f, sp) && AnchorsFollowed(x, a, ind + f) && i <= |x|
    ensures AnchorsFollowed(CollapseFrom(x, f, sp, i), a, ind + f)
    decreases |x| - i
  {
    if i < |x| {
      if Duplicate(x, f, sp, i) {
        var z := CollapseFrom(x, f, sp, RunEnd(x, f, sp, i));
        CollapseAnchorsFollowed(x, a, ind, f, sp, RunEnd(x, f, sp, i));
        assert CollapseFrom(x, f, sp, i) == f + z;
        OccursFront(f, z);
        forall k | 0 <= k < |f|
          ensures !OccursAt(f + z, a, k)
        {
          NoStartInside(f + z, f, a, 0, k);
        }
        AnchorsFollowedPrepend(f, z, a, ind + f);
      } else {
        var z := CollapseFrom(x, f, sp, i + 1);
        CollapseAnchorsFollowed(x, a, ind, f, sp, i + 1);
        assert CollapseFrom(x, f, sp, i) == [x[i]] + z;
        if OccursAt(CollapseFrom(x, f, sp, i), a, 0) {
          CollapseFollowedAt(x, a, ind, f, sp, i);
        }
        AnchorsFollowedPrepend([x[i]], z, a, ind + f);
      }
    }
  }

  /** After an anchor that carries the indent and the field, `\s*` stops at the field. */
  lemma {:induction false} FollowedFieldAt(t: string, a: string, ind: string, f: string, sp: set<char>, i: nat)
    requires Patterns(a, ind, f, sp) && OccursAt(t, ind + f, i + |a|)
    ensures SpaceEnd(t, sp, i + |a|) == i + |a| + |ind|
    ensures OccursAt(t, f, i + |a| + |ind|)
  {
    var m := i + |a| + |ind|;
    OccursJoin(t, ind, f, i + |a|);
    SpaceEndAt(t, ind, sp, i + |a|);
    OccursAtIff(t, f, m);
    assert t[m + 0] == f[0];
    SpaceEndHere(t, sp, m);
  }

  /** No anchor starts inside the indent and field that follow an anchor. */
  lemma {:induction false} CountSkipsInsertion(t: string, a: string, ind: string, f: string, sp: set<char>, i: nat)
    requires Patterns(a, ind, f, sp) && OccursAt(t, ind + f, i + |a|)
    ensures i + |a| + |ind| + |f| <= |t|
    ensures CountFrom(t, a, i + |a|) == CountFrom(t, a, i + |a| + |ind| + |f|)
  {
    NoStartFromSpace(ind, a, sp);
    NoStartFromConcat(ind, f, a, 0);
    forall k | i + |a| <= k < i + |a| + |ind + f|
      ensures !OccursAt(t, a, k)
    {
      NoStartAt(t, ind + f, a, 0, i + |a|, k);
    }
    ReplaceKeeps(t, a, a, ind + f, i + |a|);
  }

  /** When every anchor carries its field, the diagnostic finds every anchor. */
  lemma {:induction false} DiagnosticAnchor(t: string, a: string, ind: string, f: string, sp: set<char>, i: nat)
    requires Patterns(a, ind, f, sp) && AnchorsFollowed(t, a, ind + f) && i < |t| && OccursAt(t, a, i)
    requires DiagnosticFrom(t, a, f, sp, i + |a| + |ind| + |f|) == CountFrom(t, a, i + |a| + |ind| + |f|)
    ensures DiagnosticFrom(t, a, f, sp, i) == CountFrom(t, a, i)
  {
    assert OccursAt(t, ind + f, i + |a|);
    FollowedFieldAt(t, a, ind, f, sp, i);
    CountSkipsInsertion(t, a, ind, f, sp, i);
  }

  lemma {:induction false} DiagnosticOfFollowed(t: string, a: string, ind: string, f: string, sp: set<char>, i: nat)
    requires Patterns(a, ind, f, sp) && AnchorsFollowed(t, a, ind + f) && i <= |t|
    ensures DiagnosticFrom(t, a, f, sp, i) == CountFrom(t, a, i)
    decreases |t| - i
  {
    if i < |t| {
      if OccursAt(t, a, i) {
        DiagnosticOfFollowed(t, a, ind, f, sp, i + |a| + |ind| + |f|);
        DiagnosticAnchor(t, a, ind, f, sp, i);
      } else {
        DiagnosticOfFollowed(t, a, ind, f, sp, i + 1);
      }
    }
  }

  // ---------------------------------------------------------------------------
  // The whole rewrite
  // ---------------------------------------------------------------------------

  /**
   * After the replace, a copy of f follows whitespace exactly where one followed it in
   * the original text, because the replace starts its inserted text with the anchor.
   */
  lemma {:induction false} ReplaceNextField(t: string, a: string, ind: string, f: string, sp: set<char>, j: nat)
    requires Patterns(a, ind, f, sp) && j <= |t|
    ensures OccursAt(ReplaceFrom(t, a, a + ind + f, j), f, SpaceEnd(ReplaceFrom(t, a, a + ind + f, j), sp, 0))
        <==> OccursAt(t, f, SpaceEnd(t, sp, j))
  {
    var r := a + ind + f;
    InsertionFacts(a, ind, f, sp);
    var e := SpaceEnd(t, sp, j);
    SpaceEndFacts(t, sp, j);
    forall k | j <= k < e
      ensures !OccursAt(t, a, k)
    {
      assert t[j..e][k - j] == t[k];
      OccursAtIff(t, a, k);
    }
    ReplaceCopy(t, a, r, j, e);
    var w := t[j..e];
    var z := ReplaceFrom(t, a, r, e);
    SpaceEndOver(w, z, sp, 0);
    if e < |t| {
      ReplaceHead(t, a, r, [t[e]], e);
      OccursAtIff(t, [t[e]], e);
      OccursAtIff(z, [t[e]], 0);
      SpaceEndHere(z, sp, 0);
    }
    OccursShift(w, z, f, 0);
    ReplaceHead(t, a, r, f, e);
  }

  /** Away from an anchor, the replace does not change whether a duplicate run starts. */
  lemma {:induction false} ReplaceKeepsDuplicate(t: string, a: string, ind: string, f: string, sp: set<char>, i: nat)
    requires Patterns(a, ind, f, sp) && i < |t| && !OccursAt(t, a, i)
    ensures Duplicate(ReplaceFrom(t, a, a + ind + f, i), f, sp, 0) <==> Duplicate(t, f, sp, i)
  {
    var r := a + ind + f;
    InsertionFacts(a, ind, f, sp);
    if OccursAt(t, f, i) {
      forall k | i <= k < i + |f|
        ensures !OccursAt(t, a, k)
      {
        NoStartAt(t, f, a, 0, i, k);
      }
      ReplaceKeeps(t, a, r, f, i);
      DuplicateFront(f, ReplaceFrom(t, a, r, i + |f|), sp);
      ReplaceNextField(t, a, ind, f, sp, i + |f|);
    } else {
      ReplaceHead(t, a, r, f, i);
    }
  }

  /** Copies of f separated by the whitespace strings ws. */
  function Copies(ws: seq<string>, f: string): (c: string)
    ensures |c| >= |f|
  {
    if |ws| == 0 then f else f + ws[0] + Copies(ws[1..], f)
  }

  predicate AllSpaceSeq(ws: seq<string>, sp: set<char>) {
    forall i :: 0 <= i < |ws| ==> AllSpace(ws[i], sp)
  }

  lemma {:induction false} CopiesStartWithField(ws: seq<string>, f: string, z: string)
    ensures OccursAt(Copies(ws, f) + z, f, 0)
  {
    if |ws| == 0 {
      OccursFront(f, z);
    } else {
      var c1 := Copies(ws[1..], f);
      Assoc(f + ws[0], c1, z);
      Assoc(f, ws[0], c1 + z);
      OccursFront(f, ws[0] + (c1 + z));
    }
  }

  /** After a copy of f and whitespace, a text that starts with f makes a duplicate. */
  lemma {:induction false} DuplicatePrepend(f: string, w: string, y: string, sp: set<char>)
    requires FieldOk(f, sp) && AllSpace(w, sp) && OccursAt(y, f, 0)
    ensures SpaceEnd(f + (w + y), sp, |f|) == |f| + |w|
    ensures Duplicate(f + (w + y), f, sp, 0)
  {
    OccursAtIff(y, f, 0);
    assert y[0 + 0] == f[0];
    SpaceEndHere(y, sp, 0);
    SpaceEndOver(w, y, sp, 0);
    SpaceEndShift(f, w + y, sp, 0);
    OccursShift(w, y, f, 0);
    DuplicateFront(f, w + y, sp);
  }

  /** A copy of f and whitespace in front of a text that starts with f extend its run. */
  lemma {:induction false} RunPrepend(f: string, w: string, y: string, sp: set<char>)
    requires FieldOk(f, sp) && AllSpace(w, sp) && OccursAt(y, f, 0)
    ensures Duplicate((f + w) + y, f, sp, 0)
    ensures RunEnd((f + w) + y, f, sp, 0) == |f| + |w| + RunEnd(y, f, sp, 0)
  {
    Assoc(f, w, y);
    DuplicatePrepend(f, w, y, sp);
    RunEndShift(f + w, y, f, sp, 0);
  }

  lemma {:induction false} CopiesCons(ws: seq<string>, f: string, z: string)
    requires |ws| > 0
    ensures Copies(ws, f) + z == (f + ws[0]) + (Copies(ws[1..], f) + z)
  {
    Assoc(f + ws[0], Copies(ws[1..], f), z);
  }

  lemma {:induction false} AllSpaceTail(ws: seq<string>, sp: set<char>)
    requires |ws| > 0 && AllSpaceSeq(ws, sp)
    ensures AllSpace(ws[0], sp) && AllSpaceSeq(ws[1..], sp)
  {
    forall i | 0 <= i < |ws[1..]|
      ensures AllSpace(ws[1..][i], sp)
    {
      assert ws[1..][i] == ws[i + 1];
    }
  }

  /** The greedy run over a sequence of copies ends just after the last of them. */
  lemma {:induction false} RunOfCopies(ws: seq<string>, f: string, sp: set<char>, z: string)
    requires FieldOk(f, sp) && AllSpaceSeq(ws, sp) && !OccursAt(z, f, SpaceEnd(z, sp, 0))
    ensures OccursAt(Copies(ws, f) + z, f, 0)
    ensures RunEnd(Copies(ws, f) + z, f, sp, 0) == |Copies(ws, f)|
    ensures Duplicate(Copies(ws, f) + z, f, sp, 0) <==> |ws| > 0
    decreases |ws|
  {
    if |ws| == 0 {
      OccursFront(f, z);
      DuplicateFront(f, z, sp);
    } else {
      AllSpaceTail(ws, sp);
      RunOfCopies(ws[1..], f, sp, z);
      CopiesCons(ws, f, z);
      RunPrepend(f, ws[0], Copies(ws[1..], f) + z, sp);
    }
  }

  /** Two or more copies of f separated only by whitespace become one; a single copy stays. */
  lemma {:induction false} CollapseMergesCopies(ws: seq<string>, f: string, sp: set<char>, z: string)
    requires FieldOk(f, sp) && AllSpaceSeq(ws, sp) && !OccursAt(z, f, SpaceEnd(z, sp, 0))
    ensures Collapse(Copies(ws, f) + z, f, sp) == f + Collapse(z, f, sp)
  {
    var c := Copies(ws, f);
    RunOfCopies(ws, f, sp, z);
    if |ws| > 0 {
      CollapseShift(c, z, f, sp, 0);
    } else {
      CollapseLone(f + z, f, sp, 0);
      CollapseShift(f, z, f, sp, 0);
    }
  }

  /** Two copies of f around whitespace w collapse to one. */
  lemma {:induction false} CollapsePair(f: string, w: string, sp: set<char>, z: string)
    requires FieldOk(f, sp) && AllSpace(w, sp) && !OccursAt(z, f, SpaceEnd(z, sp, 0))
    ensures Collapse(f + w + f + z, f, sp) == f + Collapse(z, f, sp)
  {
    var ws := [w];
    assert Copies(ws, f) == f + w + f by {
      assert ws[1..] == [];
    }
    assert AllSpaceSeq(ws, sp);
    CollapseMergesCopies(ws, f, sp, z);
  }

  /** An anchor, the indent and two copies of f around whitespace w collapse to one copy. */
  lemma {:induction false} CollapseDoubled(a: string, ind: string, f: string, w: string, sp: set<char>, z: string)
    requires Patterns(a, ind, f, sp) && AllSpace(w, sp) && !OccursAt(z, f, SpaceEnd(z, sp, 0))
    ensures Collapse(a + ind + f + w + f + z, f, sp) == a + ind + f + Collapse(z, f, sp)
  {
    var y := f + w + f + z;
    NoStartFromSpace(ind, f, sp);
    NoStartFromConcat(a, ind, f, 0);
    RegroupDoubled(a, ind, f, w, z);
    OccursFront(a + ind, y);
    CollapseLit((a + ind) + y, a + ind, f, sp, 0);
    CollapseShift(a + ind, y, f, sp, 0);
    CollapsePair(f, w, sp, z);
    Assoc(a + ind, f, Collapse(z, f, sp));
  }

  /** At an anchor of a clean text, the replace writes a second indent and field after the first. */
  lemma {:induction false} ReplaceAtCleanAnchor(t: string, a: string, ind: string, f: string, sp: set<char>, i: nat)
    requires Patterns(a, ind, f, sp) && AnchorsFollowed(t, a, ind + f)
    requires i < |t| && OccursAt(t, a, i)
    ensures i + |a| + |ind| + |f| <= |t|
    ensures ReplaceFrom(t, a, a + ind + f, i)
         == a + ind + f + ind + f + ReplaceFrom(t, a, a + ind + f, i + |a| + |ind| + |f|)
  {
    var r := a + ind + f;
    InsertionFacts(a, ind, f, sp);
    var j := i + |a| + |ind| + |f|;
    forall k | i + |a| <= k < j
      ensures !OccursAt(t, a, k)
    {
      NoStartAt(t, ind + f, a, 0, i + |a|, k);
    }
    ReplaceKeeps(t, a, r, ind + f, i + |a|);
    assert ReplaceFrom(t, a, r, i) == r + ReplaceFrom(t, a, r, i + |a|);
    RegroupInsertion(a, ind, f, ReplaceFrom(t, a, r, j));
  }

  /** At an anchor of a clean text, the text goes on with the anchor, the indent and the field. */
  lemma {:induction false} CleanAnchorSplit(t: string, a: string, ind: string, f: string, i: nat)
    requires AnchorsFollowed(t, a, ind + f) && i < |t| && OccursAt(t, a, i)
    ensures i + |a| + |ind| + |f| <= |t|
    ensures t[i..] == a + ind + f + t[i + |a| + |ind| + |f|..]
  {
    OccursJoin(t, a, ind + f, i);
    OccursSplit(t, a + (ind + f), i);
    Assoc(a, ind, f);
  }

  /** At an anchor of a clean text, no copy of f follows the field after whitespace, even after the replace. */
  lemma {:induction false} CleanAnchorLone(t: string, a: string, ind: string, f: string, sp: set<char>, i: nat)
    requires Patterns(a, ind, f, sp) && NoDuplicateRun(t, f, sp) && AnchorsFollowed(t, a, ind + f)
    requires i < |t| && OccursAt(t, a, i)
    ensures i + |a| + |ind| + |f| <= |t|
    ensures !OccursAt(ReplaceFrom(t, a, a + ind + f, i + |a| + |ind| + |f|), f,
                      SpaceEnd(ReplaceFrom(t, a, a + ind + f, i + |a| + |ind| + |f|), sp, 0))
  {
    OccursJoin(t, ind, f, i + |a|);
    assert !Duplicate(t, f, sp, i + |a| + |ind|);
    ReplaceNextField(t, a, ind, f, sp, i + |a| + |ind| + |f|);
  }

  /** At an anchor of a clean text: the replace doubles its field and the collapse undoes that. */
  lemma {:induction false} RewriteCleanAnchor(t: string, a: string, ind: string, f: string, sp: set<char>, i: nat)
    requires Patterns(a, ind, f, sp) && NoDuplicateRun(t, f, sp) && AnchorsFollowed(t, a, ind + f)
    requires i < |t| && OccursAt(t, a, i)
    requires i + |a| + |ind| + |f| <= |t|
    requires Collapse(ReplaceFrom(t, a, a + ind + f, i + |a| + |ind| + |f|), f, sp) == t[i + |a| + |ind| + |f|..]
    ensures Collapse(ReplaceFrom(t, a, a + ind + f, i), f, sp) == t[i..]
  {
    var z := ReplaceFrom(t, a, a + ind + f, i + |a| + |ind| + |f|);
    ReplaceAtCleanAnchor(t, a, ind, f, sp, i);
    CleanAnchorSplit(t, a, ind, f, i);
    CleanAnchorLone(t, a, ind, f, sp, i);
    CollapseDoubled(a, ind, f, ind, sp, z);
  }

  /** Away from an anchor, the character is kept by both rewrites. */
  lemma {:induction false} RewriteCleanChar(t: string, a: string, ind: string, f: string, sp: set<char>, i: nat)
    requires Patterns(a, ind, f, sp) && NoDuplicateRun(t, f, sp)
    requires i < |t| && !OccursAt(t, a, i)
    requires Collapse(ReplaceFrom(t, a, a + ind + f, i + 1), f, sp) == t[i + 1..]
    ensures Collapse(ReplaceFrom(t, a, a + ind + f, i), f, sp) == t[i..]
  {
    var r := a + ind + f;
    var z := ReplaceFrom(t, a, r, i + 1);
    var x := ReplaceFrom(t, a, r, i);
    assert x == [t[i]] + z;
    ReplaceKeepsDuplicate(t, a, ind, f, sp, i);
    assert CollapseFrom(x, f, sp, 0) == [t[i]] + CollapseFrom(x, f, sp, 1);
    CollapseShift([t[i]], z, f, sp, 0);
    SliceCons(t, i, |t|);
  }

  lemma {:induction false} RewriteFromClean(t: string, a: string, ind: string, f: string, sp: set<char>, i: nat)
    requires Patterns(a, ind, f, sp) && NoDuplicateRun(t, f, sp) && AnchorsFollowed(t, a, ind + f)
    requires i <= |t|
    ensures Collapse(ReplaceFrom(t, a, a + ind + f, i), f, sp) == t[i..]
    decreases |t| - i
  {
    if i < |t| {
      if OccursAt(t, a, i) {
        assert OccursAt(t, ind + f, i + |a|);
        RewriteFromClean(t, a, ind, f, sp, i + |a| + |ind| + |f|);
        RewriteCleanAnchor(t, a, ind, f, sp, i);
      } else {
        RewriteFromClean(t, a, ind, f, sp, i + 1);
        RewriteCleanChar(t, a, ind, f, sp, i);
      }
    }
  }

  /** On a clean text the rewrite changes nothing. */
  lemma {:induction false} RewriteFixesClean(t: string, a: string, ind: string, f: string, sp: set<char>)
    requires Patterns(a, ind, f, sp) && Clean(t, a, ind, f, sp)
    ensures Rewrite(t, a, ind, f, sp) == t
  {
    CollapseFixedIffNoDuplicate(t, f, sp);
    RewriteFromClean(t, a, ind, f, sp, 0);
  }

  /** The rewrite's output is clean and has no duplicate run. */
  lemma {:induction false} RewriteIsClean(s: string, a: string, ind: string, f: string, sp: set<char>)
    requires Patterns(a, ind, f, sp)
    ensures Clean(Rewrite(s, a, ind, f, sp), a, ind, f, sp)
    ensures NoDuplicateRun(Rewrite(s, a, ind, f, sp), f, sp)
  {
    var x := Replace(s, a, a + ind + f);
    CollapseIdempotent(x, f, sp);
    CollapseHasNoDuplicate(x, f, sp, 0);
    ReplaceAnchorsFollowed(s, a, ind, f, sp, 0);
    CollapseAnchorsFollowed(x, a, ind, f, sp, 0);
  }

  /** Whatever whitespace separates an anchor from its field, the rewrite puts the indent there. */
  lemma {:induction false} RewriteNormalisesGap(gap: string, a: string, ind: string, f: string, sp: set<char>)
    requires Patterns(a, ind, f, sp) && AllSpace(gap, sp)
    ensures Rewrite(a + gap + f, a, ind, f, sp) == a + ind + f
  {
    var r := a + ind + f;
    var s := a + (gap + f);
    Assoc(a, gap, f);
    InsertionFacts(a, ind, f, sp);
    NoStartFromSpace(gap, a, sp);
    NoStartFromConcat(gap, f, a, 0);
    OccursFront(a, gap + f);
    OccursAfter(a, gap + f);
    forall k | |a| <= k < |s|
      ensures !OccursAt(s, a, k)
    {
      NoStartAt(s, gap + f, a, 0, |a|, k);
    }
    ReplaceCopy(s, a, r, |a|, |s|);
    assert Replace(s, a, r) == r + (gap + f);
    RegroupEnd(a, ind, f, gap);
    CollapseDoubled(a, ind, f, gap, sp, "");
  }

  /** Whitespace that stops inside d stops at the same place whatever follows d. */
  lemma {:induction false} SpaceEndInPrefix(d: string, z: string, sp: set<char>, j: nat)
    requires j <= |d| && SpaceEnd(d, sp, j) < |d|
    ensures SpaceEnd(d + z, sp, j) == SpaceEnd(d, sp, j)
    decreases |d| - j
  {
    if d[j] in sp {
      SpaceEndInPrefix(d, z, sp, j + 1);
    }
  }

  /** A field on its own is kept by the collapse. */
  lemma {:induction false} CollapseFieldAlone(f: string, sp: set<char>)
    requires FieldOk(f, sp)
    ensures Collapse(f, f, sp) == f
  {
    OccursAt0(f);
    CollapseLone(f, f, sp, 0);
  }

  /** A separator that is not all whitespace and in which f never starts stops a run of f. */
  lemma {:induction false} SeparatorStopsRun(f: string, d: string, z: string, sp: set<char>)
    requires FieldOk(f, sp) && NoStartFrom(d, f, 0) && SpaceEnd(d, sp, 0) < |d|
    ensures !Duplicate(f + (d + z), f, sp, 0)
  {
    DuplicateFront(f, d + z, sp);
    SpaceEndInPrefix(d, z, sp, 0);
    OccursFront(d, z);
    NoStartAt(d + z, d, f, 0, 0, SpaceEnd(d, sp, 0));
  }

  /** After the first copy of f, a separator in which f never starts and the second copy are kept. */
  lemma {:induction false} CollapseSeparatedTail(f: string, d: string, sp: set<char>)
    requires FieldOk(f, sp) && NoStartFrom(d, f, 0)
    ensures CollapseFrom(f + d + f, f, sp, |f|) == d + f
  {
    var x := f + d + f;
    Assoc(f, d, f);
    OccursAfter(f, d + f);
    OccursJoin(x, d, f, |f|);
    CollapseLit(x, d, f, sp, |f|);
    CollapseShift(f + d, f, f, sp, 0);
    CollapseFieldAlone(f, sp);
  }

  /** Two copies of f around such a separator are both kept by the collapse. */
  lemma {:induction false} CollapseSeparated(f: string, d: string, sp: set<char>)
    requires FieldOk(f, sp) && NoStartFrom(d, f, 0) && SpaceEnd(d, sp, 0) < |d|
    ensures Collapse(f + d + f, f, sp) == f + d + f
  {
    var x := f + d + f;
    Assoc(f, d, f);
    SeparatorStopsRun(f, d, f, sp);
    OccursFront(f, d + f);
    CollapseLone(x, f, sp, 0);
    CollapseSeparatedTail(f, d, sp);
  }

  // ---------------------------------------------------------------------------
  // The rewrite keeps every anchor
  // ---------------------------------------------------------------------------

  /** At an anchor, the replace writes the anchor and its insertion, and no other anchor starts in them. */
  lemma {:induction false} ReplaceCountMatch(s: string, a: string, ind: string, f: string, sp: set<char>, i: nat)
    requires Patterns(a, ind, f, sp) && OccursAt(s, a, i)
    requires CountFrom(ReplaceFrom(s, a, a + ind + f, i + |a|), a, 0) == CountFrom(s, a, i + |a|)
    ensures CountFrom(ReplaceFrom(s, a, a + ind + f, i), a, 0) == CountFrom(s, a, i)
  {
    var r := a + ind + f;
    var z := ReplaceFrom(s, a, r, i + |a|);
    var t := r + z;
    assert ReplaceFrom(s, a, r, i) == t;
    Assoc(a, ind, f);
    Assoc(a, ind + f, z);
    OccursFront(a, (ind + f) + z);
    OccursFront(ind + f, z);
    OccursShift(a, (ind + f) + z, ind + f, 0);
    CountSkipsInsertion(t, a, ind, f, sp, 0);
    CountShift(r, z, a, 0);
  }

  /** Elsewhere the replace copies the character, and no anchor starts at it in either text. */
  lemma {:induction false} ReplaceCountChar(s: string, a: string, r: string, i: nat)
    requires |a| > 0 && OccursAt(r, a, 0) && i < |s| && !OccursAt(s, a, i)
    requires CountFrom(ReplaceFrom(s, a, r, i + 1), a, 0) == CountFrom(s, a, i + 1)
    ensures CountFrom(ReplaceFrom(s, a, r, i), a, 0) == CountFrom(s, a, i)
  {
    var z := ReplaceFrom(s, a, r, i + 1);
    assert ReplaceFrom(s, a, r, i) == [s[i]] + z;
    ReplaceHead(s, a, r, a, i);
    CountShift([s[i]], z, a, 0);
  }

  /** Replacing each anchor by the anchor and its insertion keeps the number of anchors. */
  lemma {:induction false} ReplaceKeepsCount(s: string, a: string, ind: string, f: string, sp: set<char>, i: nat)
    requires Patterns(a, ind, f, sp) && i <= |s|
    ensures CountFrom(ReplaceFrom(s, a, a + ind + f, i), a, 0) == CountFrom(s, a, i)
    decreases |s| - i
  {
    if i < |s| {
      if OccursAt(s, a, i) {
        ReplaceKeepsCount(s, a, ind, f, sp, i + |a|);
        ReplaceCountMatch(s, a, ind, f, sp, i);
      } else {
        Assoc(a, ind, f);
        OccursFront(a, ind + f);
        ReplaceKeepsCount(s, a, ind, f, sp, i + 1);
        ReplaceCountChar(s, a, a + ind + f, i);
      }
    }
  }

  /** No anchor starts inside a run of copies of f separated by whitespace. */
  lemma {:induction false} RunHasNoAnchor(t: string, a: string, f: string, sp: set<char>, i: nat)
    requires |f| > 0 && NoStartFrom(f, a, 0) && a[0] !in sp && OccursAt(t, f, i)
    ensures CountFrom(t, a, i) == CountFrom(t, a, RunEnd(t, f, sp, i))
    decreases |t| - i
  {
    forall k | i <= k < i + |f|
      ensures !OccursAt(t, a, k)
    {
      NoStartAt(t, f, a, 0, i, k);
    }
    ReplaceKeeps(t, a, a, f, i);
    var e := i + |f|;
    var k := SpaceEnd(t, sp, e);
    if OccursAt(t, f, k) {
      SpaceEndFacts(t, sp, e);
      forall j | e <= j < k
        ensures !OccursAt(t, a, j)
      {
        assert t[e..k][j - e] == t[j];
        OccursAtIff(t, a, j);
        assert !(t[j + 0] == a[0]);
      }
      ReplaceCopy(t, a, a, e, k);
      RunHasNoAnchor(t, a, f, sp, k);
    }
  }

  /** The collapse writes one copy of f for a run, and no anchor starts in either. */
  lemma {:induction false} CollapseCountRun(t: string, a: string, f: string, sp: set<char>, i: nat)
    requires |f| > 0 && NoStartFrom(f, a, 0) && a[0] !in sp && i < |t| && Duplicate(t, f, sp, i)
    requires CountFrom(CollapseFrom(t, f, sp, RunEnd(t, f, sp, i)), a, 0) == CountFrom(t, a, RunEnd(t, f, sp, i))
    ensures CountFrom(CollapseFrom(t, f, sp, i), a, 0) == CountFrom(t, a, i)
  {
    var z := CollapseFrom(t, f, sp, RunEnd(t, f, sp, i));
    assert CollapseFrom(t, f, sp, i) == f + z;
    OccursFront(f, z);
    forall k | 0 <= k < |f|
      ensures !OccursAt(f + z, a, k)
    {
      NoStartAt(f + z, f, a, 0, 0, k);
    }
    ReplaceKeeps(f + z, a, a, f, 0);
    CountShift(f, z, a, 0);
    RunHasNoAnchor(t, a, f, sp, i);
  }

  /** The collapse copies an anchor, since no copy of f starts inside it. */
  lemma {:induction false} CollapseCountAnchor(t: string, a: string, f: string, sp: set<char>, i: nat)
    requires |f| > 0 && |a| > 0 && NoStartFrom(a, f, 0) && OccursAt(t, a, i)
    requires CountFrom(CollapseFrom(t, f, sp, i + |a|), a, 0) == CountFrom(t, a, i + |a|)
    ensures CountFrom(CollapseFrom(t, f, sp, i), a, 0) == CountFrom(t, a, i)
  {
    var z := CollapseFrom(t, f, sp, i + |a|);
    CollapseLit(t, a, f, sp, i);
    OccursFront(a, z);
    CountShift(a, z, a, 0);
  }

  /** Elsewhere the collapse copies the character, and no anchor starts at it in either text. */
  lemma {:induction false} CollapseCountChar(t: string, a: string, f: string, sp: set<char>, i: nat)
    requires 0 < |a| <= |f| && i < |t| && !Duplicate(t, f, sp, i) && !OccursAt(t, a, i)
    requires CountFrom(CollapseFrom(t, f, sp, i + 1), a, 0) == CountFrom(t, a, i + 1)
    ensures CountFrom(CollapseFrom(t, f, sp, i), a, 0) == CountFrom(t, a, i)
  {
    var z := CollapseFrom(t, f, sp, i + 1);
    assert CollapseFrom(t, f, sp, i) == [t[i]] + z;
    CollapseHead(t, f, sp, a, i);
    CountShift([t[i]], z, a, 0);
  }

  /** Collapsing runs of f keeps the number of anchors, when anchors and f cannot overlap. */
  lemma {:induction false} CollapseKeepsCount(t: string, a: string, f: string, sp: set<char>, i: nat)
    requires NoStartFrom(f, a, 0) && |a| <= |f| && a[0] !in sp && NoStartFrom(a, f, 0) && i <= |t|
    ensures CountFrom(CollapseFrom(t, f, sp, i), a, 0) == CountFrom(t, a, i)
    decreases |t| - i
  {
    if i < |t| {
      if Duplicate(t, f, sp, i) {
        CollapseKeepsCount(t, a, f, sp, RunEnd(t, f, sp, i));
        CollapseCountRun(t, a, f, sp, i);
      } else if OccursAt(t, a, i) {
        CollapseKeepsCount(t, a, f, sp, i + |a|);
        CollapseCountAnchor(t, a, f, sp, i);
      } else {
        CollapseKeepsCount(t, a, f, sp, i + 1);
        CollapseCountChar(t, a, f, sp, i);
      }
    }
  }

  /** The rewrite neither adds nor loses an anchor. */
  lemma {:induction false} RewriteKeepsCount(s: string, a: string, ind: string, f: string, sp: set<char>)
    requires Patterns(a, ind, f, sp)
    ensures Count(Rewrite(s, a, ind, f, sp), a) == Count(s, a)
  {
    ReplaceKeepsCount(s, a, ind, f, sp, 0);
    CollapseKeepsCount(Replace(s, a, a + ind + f), a, f, sp, 0);
  }

  // ---------------------------------------------------------------------------
  // The script's own literals
  // ---------------------------------------------------------------------------

  lemma AnchorFacts()
    ensures |Anchor| == 17 && Anchor[0] == 'e' && Anchor[1] == 'x' && Anchor[0] !in Whitespace
    ensures NoStartFrom(Anchor, Anchor, 1)
  {
  }

  lemma FieldFacts()
    ensures |Field| == 34 && Field[0] == 'u' && Field[1] == 's' && Field[0] !in Whitespace
    ensures NoStartFrom(Field, Field, 1)
  {
  }

  lemma FieldLacksX()
    ensures forall k :: 0 <= k < |Field| ==> Field[k] != 'x'
  {
  }

  lemma AnchorLacksFieldStart()
    ensures NoStartFrom(Anchor, Field, 0)
  {
  }

  lemma FieldLacksAnchorStart()
    ensures NoStartFrom(Field, Anchor, 0)
  {
    FieldLacksX();
  }

  lemma IndentFacts()
    ensures |Indent| == 13 && AllSpace(Indent, Whitespace)
  {
  }

  /** The script's anchor, indent and field meet every condition the theorems need. */
  lemma LiteralsArePatterns()
    ensures Patterns(Anchor, Indent, Field, Whitespace)
  {
    AnchorFacts();
    FieldFacts();
    FieldLacksX();
    AnchorLacksFieldStart();
    FieldLacksAnchorStart();
    IndentFacts();
  }

  // ---------------------------------------------------------------------------
  // Theorems about the script
  // ---------------------------------------------------------------------------

  /** The replace adds exactly the newline, indent and field (47 characters) per anchor. */
  lemma InsertLength(s: string)
    ensures |Insert(s)| == |s| + 47 * Count(s, Anchor)
  {
    AnchorFacts();
    FieldFacts();
    IndentFacts();
    ReplaceLength(s, Anchor, Anchor + Indent + Field, 0);
  }

  /** The replace loses nothing: removing the inserted text after each anchor gives back the input. */
  lemma InsertIsReversible(s: string)
    ensures Unreplace(Insert(s), Anchor, Anchor + Indent + Field) == s
  {
    AnchorFacts();
    OccursFront(Anchor, Indent + Field);
    Assoc(Anchor, Indent, Field);
    UnreplaceReplace(s, Anchor, Anchor + Indent + Field, 0);
  }

  /** After the replace, every anchor is immediately followed by the newline, indent and field. */
  lemma InsertFollowsEveryAnchor(s: string)
    ensures AnchorsFollowed(Insert(s), Anchor, Indent + Field)
  {
    LiteralsArePatterns();
    ReplaceAnchorsFollowed(s, Anchor, Indent, Field, Whitespace, 0);
  }

  /** The script's output is clean: collapsed, with no duplicate run left, and every anchor carries its field. */
  lemma PatchIsClean(s: string)
    ensures Clean(Patch(s), Anchor, Indent, Field, Whitespace)
    ensures NoDuplicateRun(Patch(s), Field, Whitespace)
  {
    LiteralsArePatterns();
    RewriteIsClean(s, Anchor, Indent, Field, Whitespace);
  }

  /** On a clean text the script changes nothing. */
  lemma PatchFixesClean(t: string)
    requires Clean(t, Anchor, Indent, Field, Whitespace)
    ensures Patch(t) == t
  {
    LiteralsArePatterns();
    RewriteFixesClean(t, Anchor, Indent, Field, Whitespace);
  }

  /** Running the script on its own output changes nothing. */
  lemma PatchIdempotent(s: string)
    ensures Patch(Patch(s)) == Patch(s)
  {
    PatchIsClean(s);
    PatchFixesClean(Patch(s));
  }

  /** A text with no anchor and no whitespace-separated duplicate of the field is written back unchanged. */
  lemma PatchWithoutAnchor(s: string)
    requires forall i :: 0 <= i < |s| ==> !OccursAt(s, Anchor, i)
    requires NoDuplicateRun(s, Field, Whitespace)
    ensures Patch(s) == s
  {
    FieldFacts();
    CollapseFixedIffNoDuplicate(s, Field, Whitespace);
    PatchFixesClean(s);
  }

  /** The collapse leaves a text unchanged exactly when no duplicate run of the field starts in it. */
  lemma CollapseFixedExactly(t: string)
    ensures Collapse(t, Field, Whitespace) == t <==> NoDuplicateRun(t, Field, Whitespace)
  {
    FieldFacts();
    CollapseFixedIffNoDuplicate(t, Field, Whitespace);
  }

  /** Copies of the field separated only by whitespace become one copy, when no further copy follows. */
  lemma CollapseMergesRun(ws: seq<string>, z: string)
    requires AllSpaceSeq(ws, Whitespace) && !OccursAt(z, Field, SpaceEnd(z, Whitespace, 0))
    ensures Collapse(Copies(ws, Field) + z, Field, Whitespace) == Field + Collapse(z, Field, Whitespace)
  {
    FieldFacts();
    CollapseMergesCopies(ws, Field, Whitespace, z);
  }

  /** The script neither adds nor loses an anchor. */
  lemma PatchKeepsAnchors(s: string)
    ensures Count(Patch(s), Anchor) == Count(s, Anchor)
  {
    LiteralsArePatterns();
    RewriteKeepsCount(s, Anchor, Indent, Field, Whitespace);
  }

  /**
   * On the script's output, the diagnostic of lines 11-12 reports every anchor as a correct
   * pattern: as many as there were anchors in the input.
   */
  lemma DiagnosticAfterPatch(s: string)
    ensures DiagnosticCount(Patch(s)) == Count(Patch(s), Anchor)
    ensures DiagnosticCount(Patch(s)) == Count(s, Anchor)
  {
    LiteralsArePatterns();
    RewriteIsClean(s, Anchor, Indent, Field, Whitespace);
    DiagnosticOfFollowed(Patch(s), Anchor, Indent, Field, Whitespace, 0);
    PatchKeepsAnchors(s);
  }

  /** The separator between lines of a `//!` doc comment, as at src/cosem/profile_generic.rs:64-66. */
  const DocSeparator: string := "\n//!     "

  /**
   * Two copies of the field on consecutive doc-comment lines are separated by `//!` as
   * well as whitespace, so the collapse keeps both.
   */
  lemma DocSeparatorFacts()
    ensures NoStartFrom(DocSeparator, Field, 0)
    ensures SpaceEnd(DocSeparator, Whitespace, 0) == 1
  {
    assert DocSeparator[1] == '/';
    SpaceEndHere(DocSeparator, Whitespace, 1);
  }

  lemma DocCommentDuplicateSurvives()
    ensures Collapse(Field + DocSeparator + Field, Field, Whitespace) == Field + DocSeparator + Field
  {
    FieldFacts();
    DocSeparatorFacts();
    CollapseSeparated(Field, DocSeparator, Whitespace);
  }

  /**
   * The replace always writes its own indentation, so a field that already follows the
   * anchor with other whitespace is re-indented rather than kept.
   */
  lemma IndentIsNormalised()
    ensures Patch(Anchor + "\n  " + Field) == Anchor + Indent + Field
    ensures Patch(Anchor + "\n  " + Field) != Anchor + "\n  " + Field
  {
    LiteralsArePatterns();
    assert AllSpace("\n  ", Whitespace);
    RewriteNormalisesGap("\n  ", Anchor, Indent, Field, Whitespace);
    assert |Anchor + Indent + Field| != |Anchor + "\n  " + Field|;
  }
}
