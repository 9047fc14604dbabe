/** String primitives shared by the encoder and the dump parser: substring
    search, character runs, ECMAScript `trim`, and `split` on a fixed
    separator together with its inverse `Join`. */
module Text {
  import opened Wrappers

  /** `p` occurs in `s` at index `i`. */
  predicate StartsAt(s: string, i: nat, p: string) {
    i + |p| <= |s| && s[i..i + |p|] == p
  }

  /** `p` occurs in `s` at some index at or after `from`. */
  ghost predicate OccursFrom(s: string, p: string, from: nat) {
    exists i: nat :: from <= i && StartsAt(s, i, p)
  }

  /** Leftmost occurrence of `p` in `s` at or after `from`. */
  function FindFrom(s: string, p: string, from: nat): (r: Option<nat>)
    ensures r.Some? ==> from <= r.value && StartsAt(s, r.value, p)
    ensures r.Some? ==> forall j: nat :: from <= j < r.value ==> !StartsAt(s, j, p)
    ensures r.None? ==> forall j: nat :: from <= j ==> !StartsAt(s, j, p)
    decreases |s| - from
  {
    if from + |p| > |s| then None
    else if StartsAt(s, from, p) then Some(from)
    else FindFrom(s, p, from + 1)
  }

  /** A leftmost occurrence at `i` is what `FindFrom` finds. */
  lemma {:induction false} FindFromAt(s: string, p: string, from: nat, i: nat)
    requires from <= i && StartsAt(s, i, p)
    requires forall j: nat :: from <= j < i ==> !StartsAt(s, j, p)
    ensures FindFrom(s, p, from) == Some(i)
    decreases i - from
  {
    if from < i {
      FindFromAt(s, p, from + 1, i);
    }
  }

  /** End of the longest run of `inClass` characters of `s` starting at `j`. */
  function RunEnd(s: string, j: nat, inClass: char -> bool): (k: nat)
    requires j <= |s|
    ensures j <= k <= |s|
    ensures forall m :: j <= m < k ==> inClass(s[m])
    ensures k == |s| || !inClass(s[k])
    decreases |s| - j
  {
    if j < |s| && inClass(s[j]) then RunEnd(s, j + 1, inClass) else j
  }

  predicate NotNewline(c: char) {
    c != '\n'
  }

  /** Index of the first line feed at or after `j`, or the length of `s`. */
  function LineEnd(s: string, j: nat): (k: nat)
    requires j <= |s|
    ensures j <= k <= |s|
    ensures '\n' !in s[j..k]
    ensures k == |s| || s[k] == '\n'
  {
    RunEnd(s, j, NotNewline)
  }

  /** `RunEnd` is the only end of a maximal run. */
  lemma RunEndUnique(s: string, j: nat, k: nat, inClass: char -> bool)
    requires j <= k <= |s|
    requires forall m :: j <= m < k ==> inClass(s[m])
    requires k == |s| || !inClass(s[k])
    ensures k == RunEnd(s, j, inClass)
  {
    var e := RunEnd(s, j, inClass);
  }

  /** `LineEnd` is the only end of the line that starts at `j`. */
  lemma LineEndUnique(s: string, j: nat, k: nat)
    requires j <= k <= |s|
    requires '\n' !in s[j..k]
    requires k == |s| || s[k] == '\n'
    ensures k == LineEnd(s, j)
  {
    forall m | j <= m < k ensures NotNewline(s[m]) {
      assert s[m] == s[j..k][m - j];
    }
    RunEndUnique(s, j, k, NotNewline);
  }

  /** The ECMAScript WhiteSpace and LineTerminator code points, which are the
      characters `String.prototype.trim` removes. */
  predicate IsWhitespace(c: char) {
    var n := c as int;
    n == 0x09 || n == 0x0A || n == 0x0B || n == 0x0C || n == 0x0D || n == 0x20
    || n == 0xA0 || n == 0x1680 || (0x2000 <= n <= 0x200A) || n == 0x2028
    || n == 0x2029 || n == 0x202F || n == 0x205F || n == 0x3000 || n == 0xFEFF
  }

  /** Neither end of `s` is whitespace. */
  predicate IsTrimmed(s: string) {
    s == [] || (!IsWhitespace(s[0]) && !IsWhitespace(s[|s| - 1]))
  }

  predicate AllWhitespace(s: string) {
    forall i :: 0 <= i < |s| ==> IsWhitespace(s[i])
  }

  /** Index of the first non-whitespace character of `s` at or after `i`,
      or the length of `s`. */
  function SkipSpace(s: string, i: nat): (a: nat)
    requires i <= |s|
    ensures i <= a <= |s|
    ensures forall m :: i <= m < a ==> IsWhitespace(s[m])
    ensures a == |s| || !IsWhitespace(s[a])
    decreases |s| - i
  {
    if i < |s| && IsWhitespace(s[i]) then SkipSpace(s, i + 1) else i
  }

  /** Index just after the last non-whitespace character of `s` before `j`,
      or `lo` when there is none from `lo` on. */
  function SkipSpaceBack(s: string, lo: nat, j: nat): (b: nat)
    requires lo <= j <= |s|
    ensures lo <= b <= j
    ensures forall m :: b <= m < j ==> IsWhitespace(s[m])
    ensures b == lo || !IsWhitespace(s[b - 1])
    decreases j
  {
    if lo < j && IsWhitespace(s[j - 1]) then SkipSpaceBack(s, lo, j - 1) else j
  }

  /** `SkipSpace` stops at the only place a whitespace run can stop. */
  lemma {:induction false} SkipSpaceUnique(s: string, i: nat, a: nat)
    requires i <= a <= |s|
    requires forall m :: i <= m < a ==> IsWhitespace(s[m])
    requires a == |s| || !IsWhitespace(s[a])
    ensures SkipSpace(s, i) == a
    decreases a - i
  {
    if i < a {
      SkipSpaceUnique(s, i + 1, a);
    }
  }

  /** `SkipSpaceBack` stops at the only place a backward whitespace run can
      stop. */
  lemma {:induction false} SkipSpaceBackUnique(s: string, lo: nat, b: nat, j: nat)
    requires lo <= b <= j <= |s|
    requires forall m :: b <= m < j ==> IsWhitespace(s[m])
    requires b == lo || !IsWhitespace(s[b - 1])
    ensures SkipSpaceBack(s, lo, j) == b
    decreases j - b
  {
    if b < j {
      SkipSpaceBackUnique(s, lo, b, j - 1);
    }
  }

  /** Number of whitespace characters `Trim` removes from the front of `s`. */
  function TrimOffset(s: string): (a: nat)
    ensures a <= |s|
  {
    SkipSpace(s, 0)
  }

  /** `String.prototype.trim`: `s` is `w1 + r + w2` with `w1` and `w2` all
      whitespace and `r` trimmed. */
  function Trim(s: string): (r: string)
    ensures IsTrimmed(r)
    ensures TrimOffset(s) + |r| <= |s| && r == s[TrimOffset(s)..TrimOffset(s) + |r|]
    ensures AllWhitespace(s[..TrimOffset(s)]) && AllWhitespace(s[TrimOffset(s) + |r|..])
  {
    var a := SkipSpace(s, 0);
    var b := SkipSpaceBack(s, a, |s|);
    s[a..b]
  }

  /** Whitespace padding around an already trimmed string is exactly what
      `Trim` removes: the decomposition in `Trim`'s contract is unique. */
  lemma TrimPadded(w1: string, r: string, w2: string)
    requires AllWhitespace(w1) && AllWhitespace(w2) && IsTrimmed(r)
    ensures Trim(w1 + r + w2) == r
  {
    var s := w1 + r + w2;
    var a := |w1|;
    var b := |w1| + |r|;
    forall m | b <= m < |s| ensures IsWhitespace(s[m]) {
      assert s[m] == w2[m - b];
    }
    if r == [] {
      forall m | 0 <= m < |s| ensures IsWhitespace(s[m]) {
        if m < a {
          assert s[m] == w1[m];
        }
      }
      SkipSpaceUnique(s, 0, |s|);
      SkipSpaceBackUnique(s, |s|, |s|, |s|);
    } else {
      forall m | 0 <= m < a ensures IsWhitespace(s[m]) {
        assert s[m] == w1[m];
      }
      assert s[a] == r[0] && s[b - 1] == r[|r| - 1];
      SkipSpaceUnique(s, 0, a);
      SkipSpaceBackUnique(s, a, b, |s|);
      assert s[a..b] == r;
    }
  }

  /** A string with no whitespace at either end is left as it is. */
  lemma TrimmedStays(s: string)
    requires IsTrimmed(s)
    ensures Trim(s) == s
  {
    TrimPadded([], s, []);
    assert [] + s + [] == s;
  }

  /** Trimming twice is the same as trimming once. */
  lemma TrimIdempotent(s: string)
    ensures Trim(Trim(s)) == Trim(s)
  {
    TrimmedStays(Trim(s));
  }

  /** `String.prototype.split` with a non-empty string separator: the pieces
      between the leftmost non-overlapping occurrences of `sep`. */
  function Split(s: string, sep: string): (parts: seq<string>)
    requires |sep| > 0
    ensures |parts| >= 1
    ensures Join(parts, sep) == s
    decreases |s|
  {
    match FindFrom(s, sep, 0)
    case None => [s]
    case Some(i) =>
      var rest := Split(s[i + |sep|..], sep);
      assert s == s[..i] + s[i..i + |sep|] + s[i + |sep|..];
      [s[..i]] + rest
  }

  /** Glues `parts` back together with `sep` between consecutive pieces. */
  function Join(parts: seq<string>, sep: string): string
    requires |parts| >= 1
  {
    if |parts| == 1 then parts[0] else parts[0] + sep + Join(parts[1..], sep)
  }

  lemma StartsAtPrefix(s: string, i: nat, j: nat, p: string)
    requires i <= |s| && StartsAt(s[..i], j, p)
    ensures StartsAt(s, j, p)
  {
    assert s[..i][j..j + |p|] == s[j..j + |p|];
  }

  /** No piece of a split contains the separator. */
  lemma {:induction false} SplitPiecesFree(s: string, sep: string)
    requires |sep| > 0
    ensures forall k :: 0 <= k < |Split(s, sep)| ==> !OccursFrom(Split(s, sep)[k], sep, 0)
    decreases |s|
  {
    match FindFrom(s, sep, 0)
    case None =>
    case Some(i) =>
      var rest := s[i + |sep|..];
      SplitPiecesFree(rest, sep);
      if OccursFrom(s[..i], sep, 0) {
        var j: nat :| StartsAt(s[..i], j, sep);
        StartsAtPrefix(s, i, j, sep);
        assert false;
      }
  }

  /** Where each of `parts` starts once they are joined with `sep`, the
      first one starting at `base`. */
  function Offsets(parts: seq<string>, sep: string, base: nat): (os: seq<nat>)
    ensures |os| == |parts|
    ensures |parts| > 0 ==> os[0] == base
  {
    if parts == [] then [] else [base] + Offsets(parts[1..], sep, base + |parts[0]| + |sep|)
  }

  lemma OffsetsCons(first: string, parts: seq<string>, sep: string, base: nat, next: nat, k: nat)
    requires 0 < k <= |parts| && next == base + |first| + |sep|
    ensures Offsets([first] + parts, sep, base)[k] == Offsets(parts, sep, next)[k - 1]
  {
    assert ([first] + parts)[1..] == parts;
  }

  /** Consecutive offsets are one piece and one separator apart. */
  lemma {:induction false} OffsetsNext(parts: seq<string>, sep: string, base: nat, k: nat)
    requires k + 1 < |parts|
    ensures Offsets(parts, sep, base)[k + 1] == Offsets(parts, sep, base)[k] + |parts[k]| + |sep|
    decreases k
  {
    var base' := base + |parts[0]| + |sep|;
    assert parts == [parts[0]] + parts[1..];
    OffsetsCons(parts[0], parts[1..], sep, base, base', k + 1);
    if k > 0 {
      var j := k - 1;
      OffsetsNext(parts[1..], sep, base', j);
      OffsetsCons(parts[0], parts[1..], sep, base, base', k);
      assert parts[1..][j] == parts[k];
    }
  }

  /** Moving the start moves every offset by the same amount. */
  lemma {:induction false} OffsetsBase(parts: seq<string>, sep: string, base: nat, k: nat)
    requires k < |parts|
    ensures Offsets(parts, sep, base)[k] == Offsets(parts, sep, 0)[k] + base
    decreases k
  {
    if k > 0 {
      var j := k - 1;
      var d := |parts[0]| + |sep|;
      assert parts == [parts[0]] + parts[1..];
      OffsetsCons(parts[0], parts[1..], sep, base, base + d, k);
      OffsetsCons(parts[0], parts[1..], sep, 0, d, k);
      OffsetsBase(parts[1..], sep, base + d, j);
      OffsetsBase(parts[1..], sep, d, j);
    }
  }

  /** `p` is the text of `s` at offset `o`, and no occurrence of `sep`
      starts inside it. */
  predicate PieceAt(s: string, sep: string, p: string, o: nat) {
    && o + |p| <= |s| && s[o..o + |p|] == p
    && (forall j: nat :: o <= j < o + |p| ==> !StartsAt(s, j, sep))
  }

  /** Occurrences in a suffix are occurrences in the whole text, shifted. */
  lemma StartsAtSuffix(s: string, d: nat, j: nat, p: string)
    requires d <= |s|
    ensures StartsAt(s[d..], j, p) <==> StartsAt(s, j + d, p)
  {
    if j + |p| <= |s| - d {
      assert s[d..][j..j + |p|] == s[j + d..j + d + |p|];
    }
  }

  /** A piece found in the suffix `s[d..]`, seen from `s`. */
  lemma PieceShift(s: string, sep: string, d: nat, p: string, o: nat)
    requires d <= |s| && PieceAt(s[d..], sep, p, o)
    ensures PieceAt(s, sep, p, o + d)
  {
    assert s[d..][o..o + |p|] == s[o + d..o + d + |p|];
    forall j: nat | o + d <= j < o + d + |p| ensures !StartsAt(s, j, sep) {
      StartsAtSuffix(s, d, j - d, sep);
    }
  }

  /** One step of the split: the first piece ends at the leftmost separator. */
  lemma SplitStep(s: string, sep: string, i: nat)
    requires |sep| > 0 && FindFrom(s, sep, 0) == Some(i)
    ensures Split(s, sep) == [s[..i]] + Split(s[i + |sep|..], sep)
  {
  }

  /** The two ways a split starts: no separator at all, or a first piece
      up to the leftmost separator. */
  lemma SplitCases(s: string, sep: string) returns (found: bool, i: nat)
    requires |sep| > 0
    ensures !found ==> Split(s, sep) == [s] && PieceAt(s, sep, s, 0)
    ensures found ==> i + |sep| <= |s| && StartsAt(s, i, sep)
    ensures found ==> Split(s, sep) == [s[..i]] + Split(s[i + |sep|..], sep)
    ensures found ==> |Split(s, sep)| == |Split(s[i + |sep|..], sep)| + 1
    ensures found ==> PieceAt(s, sep, s[..i], 0)
  {
    var r := FindFrom(s, sep, 0);
    found := r.Some?;
    if found {
      i := r.value;
      SplitStep(s, sep, i);
    } else {
      i := 0;
    }
  }

  /** Piece and offset `k > 0` of `[first] + parts` are piece and offset
      `k - 1` of `parts`, the offset moved past `first` and one separator. */
  lemma LaterOfCons(all: seq<string>, first: string, parts: seq<string>, sep: string, d: nat, k: nat)
    requires all == [first] + parts && 0 < k <= |parts| && d == |first| + |sep|
    ensures |all| == |parts| + 1 && all[k] == parts[k - 1]
    ensures Offsets(all, sep, 0)[k] == Offsets(parts, sep, 0)[k - 1] + d
  {
    OffsetsCons(first, parts, sep, 0, d, k);
    OffsetsBase(parts, sep, d, k - 1);
  }

  lemma SamePiece(s: string, sep: string, p: string, o: nat, p': string, o': nat)
    requires PieceAt(s, sep, p, o) && p' == p && o' == o
    ensures PieceAt(s, sep, p', o')
  {
  }

  lemma ShiftedPiece(s: string, sep: string, d: nat, p: string, o: nat, p': string, o': nat)
    requires d <= |s| && PieceAt(s[d..], sep, p, o) && p' == p && o' == o + d
    ensures PieceAt(s, sep, p', o')
  {
    PieceShift(s, sep, d, p, o);
  }

  /** The split is leftmost: each piece is the text at its offset, and no
      occurrence of `sep` starts anywhere inside it. */
  lemma {:induction false} SplitPieceAt(s: string, sep: string, k: nat)
    requires |sep| > 0 && k < |Split(s, sep)|
    ensures PieceAt(s, sep, Split(s, sep)[k], Offsets(Split(s, sep), sep, 0)[k])
    decreases |s|
  {
    var found, i := SplitCases(s, sep);
    if found && k > 0 {
      var d := i + |sep|;
      var parts := Split(s[d..], sep);
      var o := Offsets(parts, sep, 0)[k - 1];
      SplitPieceAt(s[d..], sep, k - 1);
      LaterOfCons(Split(s, sep), s[..i], parts, sep, d, k);
      ShiftedPiece(s, sep, d, parts[k - 1], o, Split(s, sep)[k], Offsets(Split(s, sep), sep, 0)[k]);
    } else if found {
      SamePiece(s, sep, s[..i], 0, Split(s, sep)[k], Offsets(Split(s, sep), sep, 0)[k]);
    } else {
      SamePiece(s, sep, s, 0, Split(s, sep)[k], Offsets(Split(s, sep), sep, 0)[k]);
    }
  }

  /** Piece `k` of `all` ends where `sep` starts, or at the end of `s` when
      it is the last piece. */
  predicate PieceEnds(s: string, sep: string, all: seq<string>, k: nat)
    requires k < |all|
  {
    var end := Offsets(all, sep, 0)[k] + |all[k]|;
    && (k + 1 < |all| ==> StartsAt(s, end, sep))
    && (k + 1 == |all| ==> end == |s|)
  }

  /** The first piece ends at the leftmost separator, or at the end of the
      text when there is none. */
  lemma FirstEnds(s: string, sep: string, found: bool, i: nat, all: seq<string>, parts: seq<string>)
    requires !found ==> all == [s]
    requires found ==> i + |sep| <= |s| && StartsAt(s, i, sep)
    requires found ==> all == [s[..i]] + parts && |parts| > 0
    ensures |all| > 0 && PieceEnds(s, sep, all, 0)
  {
    if found {
      assert all[0] == s[..i] && |all| == |parts| + 1;
    }
  }

  /** A later piece ends where it ended in the text after the first
      separator, moved by that separator's end. */
  lemma EndsOfCons(s: string, sep: string, i: nat, all: seq<string>, parts: seq<string>, k: nat)
    requires i + |sep| <= |s| && StartsAt(s, i, sep)
    requires all == [s[..i]] + parts && 0 < k <= |parts|
    requires PieceEnds(s[i + |sep|..], sep, parts, k - 1)
    ensures PieceEnds(s, sep, all, k)
  {
    var d := i + |sep|;
    var e := Offsets(parts, sep, 0)[k - 1] + |parts[k - 1]|;
    LaterOfCons(all, s[..i], parts, sep, d, k);
    StartsAtSuffix(s, d, e, sep);
  }

  /** Each piece but the last is followed by an occurrence of `sep`, and the
      last one runs to the end of the text. */
  lemma {:induction false} SplitPieceEnds(s: string, sep: string, k: nat)
    requires |sep| > 0 && k < |Split(s, sep)|
    ensures PieceEnds(s, sep, Split(s, sep), k)
    decreases |s|
  {
    var found, i := SplitCases(s, sep);
    if found && k > 0 {
      SplitPieceEnds(s[i + |sep|..], sep, k - 1);
      EndsOfCons(s, sep, i, Split(s, sep), Split(s[i + |sep|..], sep), k);
    } else if found {
      FirstEnds(s, sep, found, i, Split(s, sep), Split(s[i + |sep|..], sep));
    } else {
      FirstEnds(s, sep, found, i, Split(s, sep), []);
    }
  }
}
