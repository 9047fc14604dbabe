/** The text half of `generateFieldJson`: the output of
    `pdftk <file> dump_data_fields_utf8` is cut into chunks at `---`, and each
    chunk after the first becomes one form-field descriptor through a handful
    of leftmost-match regular expressions. The option test shares one global
    regular expression across chunks, so its `lastIndex` is threaded from
    chunk to chunk here. */
module FieldJson {
  import opened Wrappers
  import opened Text
  import Sorting

  /** `FormField`. The source types `fieldMaxLength` as number or string and
      `fieldValue` as boolean or string, but the parser only ever stores
      strings in them. */
  datatype FormField = FormField(
    fieldDefault: string,
    fieldFlags: string,
    fieldMaxLength: string,
    fieldOptions: seq<string>,
    fieldType: string,
    fieldValue: string,
    title: string)

  const Separator: string := "---"
  const NamePrefix: string := "FieldName: "
  const TypePrefix: string := "FieldType: "
  const FlagsPrefix: string := "FieldFlags: "
  const MaxLengthPrefix: string := "FieldMaxLength: "
  const ValuePrefix: string := "FieldValue: "
  const DefaultPrefix: string := "FieldValueDefault: "
  const OptionPrefix: string := "FieldStateOption: "

  /** The class `[\t .A-Za-z]`. */
  predicate IsTypeChar(c: char) {
    c == '\t' || c == ' ' || c == '.' || ('A' <= c <= 'Z') || ('a' <= c <= 'z')
  }

  /** The class `[\d\t .]`; `\d` is the ASCII digits. */
  predicate IsNumberChar(c: char) {
    c == '\t' || c == ' ' || c == '.' || ('0' <= c <= '9')
  }

  // ---------------------------------------------------------------------------
  // The two shapes of regular expression

  /** A successful match: where the literal prefix starts and what the
      parenthesised group captured. */
  datatype Match = Match(start: nat, group: string)

  /** `g` is the text of `s` from `j` up to the next line feed or the end. */
  predicate IsRestOfLine(s: string, j: nat, g: string) {
    j + |g| <= |s| && s[j..j + |g|] == g && '\n' !in g && (j + |g| == |s| || s[j + |g|] == '\n')
  }

  /** `exec` of the non-global pattern `prefix([^\n]*)`: the group can be
      empty, so the leftmost occurrence of the prefix always matches. */
  function ExecLine(s: string, prefix: string): (m: Option<Match>)
    ensures m.None? <==> !OccursFrom(s, prefix, 0)
    ensures m.Some? ==> StartsAt(s, m.value.start, prefix)
    ensures m.Some? ==> forall j: nat :: j < m.value.start ==> !StartsAt(s, j, prefix)
    ensures m.Some? ==> IsRestOfLine(s, m.value.start + |prefix|, m.value.group)
  {
    match FindFrom(s, prefix, 0)
    case None => None
    case Some(i) =>
      var j := i + |prefix|;
      var k := LineEnd(s, j);
      assert s[j..j + (k - j)] == s[j..k];
      Some(Match(i, s[j..k]))
  }

  /** The prefix occurs at `i` and a character of the class follows it. */
  predicate ClassMatchAt(s: string, i: nat, prefix: string, inClass: char -> bool) {
    StartsAt(s, i, prefix) && i + |prefix| < |s| && inClass(s[i + |prefix|])
  }

  /** Leftmost `i` at or after `from` with `ClassMatchAt(s, i, prefix, inClass)`. */
  function FindClassFrom(s: string, prefix: string, inClass: char -> bool, from: nat): (r: Option<nat>)
    ensures r.Some? ==> from <= r.value && ClassMatchAt(s, r.value, prefix, inClass)
    ensures r.Some? ==> forall j: nat :: from <= j < r.value ==> !ClassMatchAt(s, j, prefix, inClass)
    ensures r.None? ==> forall j: nat :: from <= j ==> !ClassMatchAt(s, j, prefix, inClass)
    decreases |s| - from
  {
    if from + |prefix| >= |s| then None
    else if ClassMatchAt(s, from, prefix, inClass) then Some(from)
    else FindClassFrom(s, prefix, inClass, from + 1)
  }

  /** `g` is the longest non-empty run of class characters starting at `j`. */
  predicate IsClassRun(s: string, j: nat, g: string, inClass: char -> bool) {
    && j + |g| <= |s| && s[j..j + |g|] == g && |g| > 0
    && (forall c :: c in g ==> inClass(c))
    && (j + |g| == |s| || !inClass(s[j + |g|]))
  }

  /** `exec` of the non-global pattern `prefix([class]+)`: an occurrence of
      the prefix not followed by a class character does not match, and the
      search goes on to the next occurrence. */
  function ExecClass(s: string, prefix: string, inClass: char -> bool): (m: Option<Match>)
    ensures m.None? <==> forall i: nat :: !ClassMatchAt(s, i, prefix, inClass)
    ensures m.Some? ==> ClassMatchAt(s, m.value.start, prefix, inClass)
    ensures m.Some? ==> forall j: nat :: j < m.value.start ==> !ClassMatchAt(s, j, prefix, inClass)
    ensures m.Some? ==> IsClassRun(s, m.value.start + |prefix|, m.value.group, inClass)
  {
    match FindClassFrom(s, prefix, inClass, 0)
    case None => None
    case Some(i) =>
      var j := i + |prefix|;
      var k := RunEnd(s, j, inClass);
      assert s[j..j + (k - j)] == s[j..k];
      assert forall c :: c in s[j..k] ==> inClass(c);
      Some(Match(i, s[j..k]))
  }

  /** `?.[1]?.trim() ?? ""`: the trimmed group, or empty when nothing matched. */
  function TrimmedGroup(m: Option<Match>): (r: string)
    ensures m.None? ==> r == ""
    ensures m.Some? ==> r == Trim(m.value.group)
    ensures m.Some? ==> forall c :: c in r ==> c in m.value.group
  {
    match m
    case None => ""
    case Some(x) =>
      var t := Trim(x.group);
      assert forall c :: c in t ==> c in x.group;
      t
  }

  /** An attribute read with `prefix([^\n]*)`. */
  function LineField(chunk: string, prefix: string): (r: string)
    ensures !OccursFrom(chunk, prefix, 0) ==> r == ""
    ensures IsTrimmed(r) && '\n' !in r
  {
    TrimmedGroup(ExecLine(chunk, prefix))
  }

  /** An attribute read with `prefix([class]+)`. */
  function ClassField(chunk: string, prefix: string, inClass: char -> bool): (r: string)
    ensures (forall i: nat :: !ClassMatchAt(chunk, i, prefix, inClass)) ==> r == ""
    ensures IsTrimmed(r)
    ensures forall c :: c in r ==> inClass(c)
  {
    TrimmedGroup(ExecClass(chunk, prefix, inClass))
  }

  /** A line attribute is the rest of the line after the first occurrence of
      its prefix, trimmed. */
  lemma LineFieldIsFirstLine(chunk: string, prefix: string, i: nat)
    requires StartsAt(chunk, i, prefix)
    requires forall j: nat :: j < i ==> !StartsAt(chunk, j, prefix)
    ensures LineField(chunk, prefix) == Trim(chunk[i + |prefix|..LineEnd(chunk, i + |prefix|)])
  {
    FindFromAt(chunk, prefix, 0, i);
    var j := i + |prefix|;
    assert ExecLine(chunk, prefix) == Some(Match(i, chunk[j..LineEnd(chunk, j)]));
  }

  /** A leftmost class match at `i` is what `FindClassFrom` finds. */
  lemma {:induction false} FindClassFromAt(s: string, prefix: string, inClass: char -> bool, from: nat, i: nat)
    requires from <= i && ClassMatchAt(s, i, prefix, inClass)
    requires forall j: nat :: from <= j < i ==> !ClassMatchAt(s, j, prefix, inClass)
    ensures FindClassFrom(s, prefix, inClass, from) == Some(i)
    decreases i - from
  {
    if from < i {
      FindClassFromAt(s, prefix, inClass, from + 1, i);
    }
  }

  /** A class attribute is the run after the first occurrence of its prefix
      that is followed by a class character, trimmed; earlier occurrences
      followed by anything else are skipped. */
  lemma ClassFieldIsFirstClassMatch(chunk: string, prefix: string, inClass: char -> bool, i: nat)
    requires ClassMatchAt(chunk, i, prefix, inClass)
    requires forall j: nat :: j < i ==> !ClassMatchAt(chunk, j, prefix, inClass)
    ensures ClassField(chunk, prefix, inClass) == Trim(chunk[i + |prefix|..RunEnd(chunk, i + |prefix|, inClass)])
  {
    FindClassFromAt(chunk, prefix, inClass, 0, i);
    var j := i + |prefix|;
    assert ExecClass(chunk, prefix, inClass) == Some(Match(i, chunk[j..RunEnd(chunk, j, inClass)]));
  }

  /** `FieldValue: ` needs the colon straight after `Value`, so it never
      matches where a `FieldValueDefault: ` line starts. */
  lemma ValueNotAtDefault(chunk: string, i: nat)
    requires StartsAt(chunk, i, DefaultPrefix)
    ensures !StartsAt(chunk, i, ValuePrefix)
  {
    assert chunk[i + 10] == DefaultPrefix[10] == 'D';
  }

  // ---------------------------------------------------------------------------
  // Options

  /** Text matched by the pattern `FieldStateOption: [^\n]*`. */
  predicate IsOptionMatch(m: string) {
    StartsAt(m, 0, OptionPrefix) && '\n' !in m
  }

  /** `m` is the text of `s` from an option prefix at `i` to the end of its
      line. */
  predicate IsOptionLineAt(s: string, i: nat, m: string) {
    StartsAt(s, i, OptionPrefix) && m == s[i..LineEnd(s, i + |OptionPrefix|)]
  }

  /** Where the global option pattern matches, scanning from `from`: each
      search starts at the end of the previous match. */
  function OptionStarts(s: string, from: nat): (ps: seq<nat>)
    ensures forall k :: 0 <= k < |ps| ==> from <= ps[k] && StartsAt(s, ps[k], OptionPrefix)
    ensures forall k, l :: 0 <= k < l < |ps| ==> ps[k] < ps[l]
    decreases |s| - from
  {
    match FindFrom(s, OptionPrefix, from)
    case None => []
    case Some(i) =>
      var rest := OptionStarts(s, LineEnd(s, i + |OptionPrefix|));
      assert forall l :: 0 <= l < |rest| ==> i < rest[l];
      [i] + rest
  }

  /** The option prefix at `i` is the first one at or after `from` on its
      line: a line feed separates every earlier occurrence from it. */
  ghost predicate FirstOptionOnLine(s: string, from: nat, i: nat) {
    && from <= i && StartsAt(s, i, OptionPrefix)
    && forall j: nat :: from <= j < i && StartsAt(s, j, OptionPrefix) ==> '\n' in s[j..i]
  }

  /** The scan starts a match exactly at the first option prefix of each
      line: a match runs to the end of its line, so later occurrences on that
      line are never seen. */
  lemma {:induction false} OptionStartsFirstOnLine(s: string, from: nat, i: nat)
    ensures i in OptionStarts(s, from) <==> FirstOptionOnLine(s, from, i)
    decreases |s| - from
  {
    match FindFrom(s, OptionPrefix, from)
    case None =>
    case Some(j) =>
      var e := LineEnd(s, j + |OptionPrefix|);
      OptionStartsStep(s, from, j);
      OptionStartsFirstOnLine(s, e, i);
      if i != j {
        if FirstOptionOnLine(s, from, i) {
          LineFeedAfterMatch(s, j, i);
          FirstOnLineFrom(s, from, e, i);
        }
        if FirstOptionOnLine(s, e, i) {
          NextLineStart(s, j, i);
          FirstOnLineBefore(s, from, j, e, i);
        }
      }
  }

  /** A line feed between the option prefixes at `j` and `i` lies at or after
      the end of `j`'s line. */
  lemma LineFeedAfterMatch(s: string, j: nat, i: nat)
    requires j < i && StartsAt(s, j, OptionPrefix) && StartsAt(s, i, OptionPrefix)
    requires '\n' in s[j..i]
    ensures LineEnd(s, j + |OptionPrefix|) < i
  {
    var m :| j <= m < i && s[m] == '\n';
    assert '\n' !in OptionPrefix;
  }

  /** Where the option prefix at `i` lies past the end of `j`'s line, that
      end is a line feed in front of `i`. */
  lemma NextLineStart(s: string, j: nat, i: nat)
    requires j < i && StartsAt(s, j, OptionPrefix) && StartsAt(s, i, OptionPrefix)
    requires LineEnd(s, j + |OptionPrefix|) <= i
    ensures var e := LineEnd(s, j + |OptionPrefix|); e < i && s[e] == '\n'
  {
  }

  lemma FirstOnLineFrom(s: string, from: nat, e: nat, i: nat)
    requires FirstOptionOnLine(s, from, i) && from <= e <= i
    ensures FirstOptionOnLine(s, e, i)
  {
  }

  lemma FirstOnLineBefore(s: string, from: nat, j: nat, e: nat, i: nat)
    requires FirstOptionOnLine(s, e, i)
    requires from <= j < e < i && s[e] == '\n'
    requires forall k: nat :: from <= k < j ==> !StartsAt(s, k, OptionPrefix)
    ensures FirstOptionOnLine(s, from, i)
  {
    forall k: nat | j <= k < e
      ensures '\n' in s[k..i]
    {
      assert s[e] == s[k..i][e - k];
    }
  }

  /** Each line with an option prefix gives exactly one starting point, and
      no other index is one. */
  lemma OneStartPerLine(s: string, from: nat, i: nat)
    ensures multiset(OptionStarts(s, from))[i] == if FirstOptionOnLine(s, from, i) then 1 else 0
  {
    OptionStartsFirstOnLine(s, from, i);
    IncreasingOnce(OptionStarts(s, from), i);
  }

  /** A strictly increasing sequence holds each of its elements once. */
  lemma {:induction false} IncreasingOnce(ps: seq<nat>, x: nat)
    requires forall k, l :: 0 <= k < l < |ps| ==> ps[k] < ps[l]
    ensures multiset(ps)[x] == if x in ps then 1 else 0
  {
    if ps != [] {
      var tail := ps[1..];
      assert ps == [ps[0]] + tail;
      assert forall k, l :: 0 <= k < l < |tail| ==> tail[k] < tail[l] by {
        forall k, l | 0 <= k < l < |tail| ensures tail[k] < tail[l] {
          assert tail[k] == ps[k + 1] && tail[l] == ps[l + 1];
        }
      }
      IncreasingOnce(tail, x);
      if x == ps[0] {
        assert forall l :: 0 <= l < |tail| ==> tail[l] == ps[l + 1] > x;
      }
    }
  }

  /** `String.prototype.match` with the global pattern
      `FieldStateOption: [^\n]*`, scanning from `from`: every match, each
      taken whole to the end of its line, the next search starting where the
      previous match ended. */
  function OptionMatches(s: string, from: nat): (ms: seq<string>)
    ensures forall k :: 0 <= k < |ms| ==> IsOptionMatch(ms[k])
    ensures |ms| == 0 <==> !OccursFrom(s, OptionPrefix, from)
    decreases |s| - from
  {
    match FindFrom(s, OptionPrefix, from)
    case None => []
    case Some(i) =>
      var e := LineEnd(s, i + |OptionPrefix|);
      var m := s[i..e];
      assert m == OptionPrefix + s[i + |OptionPrefix|..e];
      assert '\n' !in OptionPrefix;
      [m] + OptionMatches(s, e)
  }

  /** The text from each starting point in `ps` to the end of its line. */
  function LinesAt(s: string, ps: seq<nat>): (ms: seq<string>)
    requires forall k :: 0 <= k < |ps| ==> StartsAt(s, ps[k], OptionPrefix)
    ensures |ms| == |ps|
    ensures forall k :: 0 <= k < |ps| ==> IsOptionLineAt(s, ps[k], ms[k])
  {
    if ps == [] then []
    else
      var rest := LinesAt(s, ps[1..]);
      assert StartsAt(s, ps[0], OptionPrefix);
      assert forall k :: 1 <= k < |ps| ==> ps[k] == ps[1..][k - 1];
      [s[ps[0]..LineEnd(s, ps[0] + |OptionPrefix|)]] + rest
  }

  /** The matches are exactly the lines at the scan's starting points. */
  lemma {:induction false} OptionMatchesAreLines(s: string, from: nat)
    ensures OptionMatches(s, from) == LinesAt(s, OptionStarts(s, from))
    decreases |s| - from
  {
    var r := FindFrom(s, OptionPrefix, from);
    if r.Some? {
      var e := LineEnd(s, r.value + |OptionPrefix|);
      OptionMatchesAreLines(s, e);
      OptionLinesStep(s, from, r.value);
    }
  }

  /** One step of the scan, for matches and starting points alike. */
  lemma OptionLinesStep(s: string, from: nat, i: nat)
    requires FindFrom(s, OptionPrefix, from) == Some(i)
    requires var e := LineEnd(s, i + |OptionPrefix|);
      OptionMatches(s, e) == LinesAt(s, OptionStarts(s, e))
    ensures OptionMatches(s, from) == LinesAt(s, OptionStarts(s, from))
  {
    var e := LineEnd(s, i + |OptionPrefix|);
    OptionMatchesStep(s, from, i);
    OptionStartsStep(s, from, i);
    LinesAtCons(s, i, OptionStarts(s, e));
  }

  lemma OptionMatchesStep(s: string, from: nat, i: nat)
    requires FindFrom(s, OptionPrefix, from) == Some(i)
    ensures var e := LineEnd(s, i + |OptionPrefix|);
      OptionMatches(s, from) == [s[i..e]] + OptionMatches(s, e)
  {
  }

  lemma OptionStartsStep(s: string, from: nat, i: nat)
    requires FindFrom(s, OptionPrefix, from) == Some(i)
    ensures OptionStarts(s, from) == [i] + OptionStarts(s, LineEnd(s, i + |OptionPrefix|))
  {
  }

  lemma LinesAtCons(s: string, i: nat, ps: seq<nat>)
    requires StartsAt(s, i, OptionPrefix)
    requires forall k :: 0 <= k < |ps| ==> StartsAt(s, ps[k], OptionPrefix)
    ensures LinesAt(s, [i] + ps) == [s[i..LineEnd(s, i + |OptionPrefix|)]] + LinesAt(s, ps)
  {
    assert ([i] + ps)[1..] == ps;
  }

  /** `/FieldStateOption: ([^\n]*)/.exec(match)?.[1]?.trim()!` on one match:
      the match starts with the prefix, so the group is always present and is
      the rest of the match. */
  function OptionValue(m: string): (v: string)
    requires IsOptionMatch(m)
    ensures v == Trim(m[|OptionPrefix|..])
  {
    ExecLineAtStart(m, OptionPrefix);
    Trim(ExecLine(m, OptionPrefix).value.group)
  }

  /** A one-line text that starts with `prefix` matches `prefix([^\n]*)` at
      its start, and the group is all the rest. */
  lemma ExecLineAtStart(m: string, prefix: string)
    requires StartsAt(m, 0, prefix) && '\n' !in m
    ensures ExecLine(m, prefix) == Some(Match(0, m[|prefix|..]))
  {
    assert FindFrom(m, prefix, 0) == Some(0);
    assert '\n' !in m[|prefix|..|m|] by {
      assert forall c :: c in m[|prefix|..|m|] ==> c in m;
    }
    LineEndUnique(m, |prefix|, |m|);
    assert m[|prefix|..|m|] == m[|prefix|..];
    assert ExecLine(m, prefix) == Some(Match(0, m[|prefix|..LineEnd(m, |prefix|)]));
  }

  function OptionValues(ms: seq<string>): (vs: seq<string>)
    requires forall k :: 0 <= k < |ms| ==> IsOptionMatch(ms[k])
    ensures |vs| == |ms|
    ensures forall k :: 0 <= k < |ms| ==> vs[k] == OptionValue(ms[k])
  {
    seq(|ms|, k requires 0 <= k < |ms| => OptionValue(ms[k]))
  }

  /** The scan never skips an option line that starts a line of the text:
      an earlier match ends at or before the line feed in front of it. */
  lemma {:induction false} LineStartIsScanned(s: string, from: nat, i: nat)
    requires from <= i && StartsAt(s, i, OptionPrefix)
    requires i == 0 || s[i - 1] == '\n'
    ensures i in OptionStarts(s, from)
    decreases |s| - from
  {
    match FindFrom(s, OptionPrefix, from)
    case None =>
      assert false;
    case Some(j) =>
      var e := LineEnd(s, j + |OptionPrefix|);
      OptionStartsStep(s, from, j);
      if j < i {
        EarlierMatchEndsBefore(s, j, i);
        LineStartIsScanned(s, e, i);
      }
      InCons(i, j, OptionStarts(s, e));
  }

  lemma InCons(i: nat, j: nat, ps: seq<nat>)
    requires i == j || i in ps
    ensures i in [j] + ps
  {
  }

  /** An option line starting before the line feed at `i - 1` ends at or
      before it: the prefix holds no line feed. */
  lemma EarlierMatchEndsBefore(s: string, j: nat, i: nat)
    requires j < i <= |s| && StartsAt(s, j, OptionPrefix) && s[i - 1] == '\n'
    ensures LineEnd(s, j + |OptionPrefix|) <= i - 1
  {
    var n := |OptionPrefix|;
    assert '\n' !in OptionPrefix;
    forall m | j <= m < j + n ensures s[m] != '\n' {
      assert s[m] == s[j..j + n][m - j];
    }
    var e := LineEnd(s, j + n);
    forall m | j + n <= m < e ensures s[m] != '\n' {
      assert s[m] == s[j + n..e][m - (j + n)];
    }
  }

  /** Every option line that starts a line of the chunk contributes its
      trimmed value to the options. */
  lemma LineStartOptionListed(s: string, i: nat)
    requires StartsAt(s, i, OptionPrefix)
    requires i == 0 || s[i - 1] == '\n'
    ensures Trim(s[i + |OptionPrefix|..LineEnd(s, i + |OptionPrefix|)])
      in multiset(GetFieldOptions(s))
  {
    var e := LineEnd(s, i + |OptionPrefix|);
    LineStartIsScanned(s, 0, i);
    OptionMatchesAreLines(s, 0);
    LineListed(s, i, OptionStarts(s, 0));
    ValueListed(s[i..e], OptionMatches(s, 0));
    OptionLineValue(s, i);
  }

  /** Conversely, every option comes from an option line of the chunk. */
  lemma OptionListedIsLine(s: string, v: string)
    requires v in multiset(GetFieldOptions(s))
    ensures exists i: nat ::
      && StartsAt(s, i, OptionPrefix)
      && v == Trim(s[i + |OptionPrefix|..LineEnd(s, i + |OptionPrefix|)])
  {
    var ms := OptionMatches(s, 0);
    assert v in multiset(OptionValues(ms));
    var k := ValueSource(v, ms);
    var i := MatchSource(s, 0, k);
    OptionLineValue(s, i);
  }

  /** The starting point of the `k`-th match. */
  lemma MatchSource(s: string, from: nat, k: nat) returns (i: nat)
    requires k < |OptionMatches(s, from)|
    ensures StartsAt(s, i, OptionPrefix)
    ensures OptionMatches(s, from)[k] == s[i..LineEnd(s, i + |OptionPrefix|)]
  {
    OptionMatchesAreLines(s, from);
    i := OptionStarts(s, from)[k];
    assert IsOptionLineAt(s, i, LinesAt(s, OptionStarts(s, from))[k]);
  }

  /** The index of the match a value comes from. */
  lemma ValueSource(v: string, ms: seq<string>) returns (k: nat)
    requires forall k :: 0 <= k < |ms| ==> IsOptionMatch(ms[k])
    requires v in multiset(OptionValues(ms))
    ensures k < |ms| && v == OptionValue(ms[k])
  {
    var vs := OptionValues(ms);
    assert v in vs;
    k :| 0 <= k < |vs| && vs[k] == v;
  }

  /** A starting point in `ps` puts its line in `LinesAt(s, ps)`. */
  lemma LineListed(s: string, i: nat, ps: seq<nat>)
    requires forall k :: 0 <= k < |ps| ==> StartsAt(s, ps[k], OptionPrefix)
    requires i in ps
    ensures StartsAt(s, i, OptionPrefix)
    ensures s[i..LineEnd(s, i + |OptionPrefix|)] in LinesAt(s, ps)
  {
    var k :| 0 <= k < |ps| && ps[k] == i;
    assert LinesAt(s, ps)[k] == s[i..LineEnd(s, i + |OptionPrefix|)];
  }

  /** A listed match puts its value in the values. */
  lemma ValueListed(m: string, ms: seq<string>)
    requires forall k :: 0 <= k < |ms| ==> IsOptionMatch(ms[k])
    requires m in ms
    ensures IsOptionMatch(m) && OptionValue(m) in multiset(OptionValues(ms))
  {
    var k :| 0 <= k < |ms| && ms[k] == m;
    assert OptionValues(ms)[k] == OptionValue(m);
  }

  /** The value of the option line at `i` is the trimmed rest of that line. */
  lemma OptionLineValue(s: string, i: nat)
    requires StartsAt(s, i, OptionPrefix)
    ensures var e := LineEnd(s, i + |OptionPrefix|);
      IsOptionMatch(s[i..e]) && OptionValue(s[i..e]) == Trim(s[i + |OptionPrefix|..e])
  {
    var e := LineEnd(s, i + |OptionPrefix|);
    assert s[i..e] == OptionPrefix + s[i + |OptionPrefix|..e];
    assert '\n' !in OptionPrefix;
    assert s[i..e][|OptionPrefix|..] == s[i + |OptionPrefix|..e];
  }

  /** `getFieldOptions`: one trimmed entry per option line, sorted. */
  function GetFieldOptions(chunk: string): (r: seq<string>)
    ensures Sorting.Sorted(r)
    ensures multiset(r) == multiset(OptionValues(OptionMatches(chunk, 0)))
    ensures |r| == |OptionMatches(chunk, 0)|
    ensures r == [] <==> !OccursFrom(chunk, OptionPrefix, 0)
  {
    var vs := OptionValues(OptionMatches(chunk, 0));
    var r := Sorting.Sort(vs);
    assert |r| == |multiset(r)| == |multiset(vs)| == |vs|;
    r
  }

  /** `regOptions.test(chunk)` on the shared global pattern, given its
      `lastIndex`: whether a match starts at or after `lastIndex`, and the
      new `lastIndex`, which is the end of that match, or 0 on failure. */
  function TestOptions(chunk: string, lastIndex: nat): (r: (bool, nat))
    ensures r.0 <==> OccursFrom(chunk, OptionPrefix, lastIndex)
    ensures !r.0 ==> r.1 == 0
    ensures r.0 ==> lastIndex + |OptionPrefix| <= r.1 <= |chunk|
    ensures r.0 ==> r.1 == |chunk| || chunk[r.1] == '\n'
    ensures r.0 ==> exists i: nat ::
      && lastIndex <= i && StartsAt(chunk, i, OptionPrefix)
      && (forall j: nat :: lastIndex <= j < i ==> !StartsAt(chunk, j, OptionPrefix))
      && r.1 == LineEnd(chunk, i + |OptionPrefix|)
  {
    if lastIndex > |chunk| then (false, 0)
    else
      match FindFrom(chunk, OptionPrefix, lastIndex)
      case None => (false, 0)
      case Some(i) => (true, LineEnd(chunk, i + |OptionPrefix|))
  }

  // ---------------------------------------------------------------------------
  // Descriptors

  /** The record literal built for one chunk; `hasOptions` is the outcome of
      the option test. */
  function Describe(chunk: string, hasOptions: bool): (f: FormField)
    ensures DescribesChunk(f, chunk)
    ensures hasOptions ==> f.fieldOptions == GetFieldOptions(chunk)
    ensures !hasOptions ==> f.fieldOptions == []
  {
    FormField(
      fieldDefault := LineField(chunk, DefaultPrefix),
      fieldFlags := ClassField(chunk, FlagsPrefix, IsNumberChar),
      fieldMaxLength := ClassField(chunk, MaxLengthPrefix, IsNumberChar),
      fieldOptions := if hasOptions then GetFieldOptions(chunk) else [],
      fieldType := ClassField(chunk, TypePrefix, IsTypeChar),
      fieldValue := LineField(chunk, ValuePrefix),
      title := LineField(chunk, NamePrefix))
  }

  /** What every descriptor satisfies whatever the option test said: each
      attribute comes from its own chunk, is empty when its prefix line is
      absent, is trimmed, and keeps to its character class; the options are
      either empty or the chunk's sorted option values. */
  ghost predicate DescribesChunk(f: FormField, chunk: string) {
    && f.title == LineField(chunk, NamePrefix)
    && f.fieldType == ClassField(chunk, TypePrefix, IsTypeChar)
    && f.fieldFlags == ClassField(chunk, FlagsPrefix, IsNumberChar)
    && f.fieldMaxLength == ClassField(chunk, MaxLengthPrefix, IsNumberChar)
    && f.fieldValue == LineField(chunk, ValuePrefix)
    && f.fieldDefault == LineField(chunk, DefaultPrefix)
    && (f.fieldOptions == [] || f.fieldOptions == GetFieldOptions(chunk))
  }

  /** The outcomes of the shared option test over the chunks, in order. */
  function Tests(chunks: seq<string>, lastIndex: nat): (bs: seq<bool>)
    ensures |bs| == |chunks|
    ensures forall k :: 0 <= k < |chunks| && bs[k] ==> OccursFrom(chunks[k], OptionPrefix, 0)
  {
    if chunks == [] then []
    else
      var t := TestOptions(chunks[0], lastIndex);
      [t.0] + Tests(chunks[1..], t.1)
  }

  /** The `lastIndex` each test starts from: the given one for the first
      chunk, then whatever the previous test left, the end of its match or
      0. */
  function LastIndexes(chunks: seq<string>, lastIndex: nat): (ls: seq<nat>)
    ensures |ls| == |chunks|
    ensures |chunks| > 0 ==> ls[0] == lastIndex
  {
    if chunks == [] then []
    else [lastIndex] + LastIndexes(chunks[1..], TestOptions(chunks[0], lastIndex).1)
  }

  /** The `k`-th test searches its chunk from the `k`-th threaded
      `lastIndex`, and leaves the next one. */
  lemma {:induction false} TestsThreaded(chunks: seq<string>, lastIndex: nat, k: nat)
    requires k < |chunks|
    ensures var ls := LastIndexes(chunks, lastIndex);
      && (Tests(chunks, lastIndex)[k] <==> OccursFrom(chunks[k], OptionPrefix, ls[k]))
      && (k + 1 < |chunks| ==> ls[k + 1] == TestOptions(chunks[k], ls[k]).1)
    decreases k
  {
    var t := TestOptions(chunks[0], lastIndex);
    var bs, ls := Tests(chunks, lastIndex), LastIndexes(chunks, lastIndex);
    var bs', ls' := Tests(chunks[1..], t.1), LastIndexes(chunks[1..], t.1);
    assert bs == [t.0] + bs';
    assert ls == [lastIndex] + ls';
    if k > 0 {
      var j := k - 1;
      TestsThreaded(chunks[1..], t.1, j);
      assert chunks[1..][j] == chunks[k];
      assert bs[k] == bs'[j] && ls[k] == ls'[j];
      if k + 1 < |chunks| {
        assert ls[k + 1] == ls'[j + 1];
      }
    }
  }

  /** The options the `k`-th test gives its chunk. */
  function OptionsAt(chunks: seq<string>, lastIndex: nat, k: nat): seq<string>
    requires k < |chunks|
  {
    if Tests(chunks, lastIndex)[k] then GetFieldOptions(chunks[k]) else []
  }

  /** The loop over chunks: chunk `k` is described with the outcome of the
      `k`-th test of the shared pattern. */
  function ParseChunks(chunks: seq<string>, lastIndex: nat): (fs: seq<FormField>)
    ensures |fs| == |chunks|
  {
    var bs := Tests(chunks, lastIndex);
    seq(|chunks|, k requires 0 <= k < |chunks| => Describe(chunks[k], bs[k]))
  }

  /** The options of descriptor `k` are its chunk's exactly when the `k`-th
      test succeeds. */
  lemma ParseChunksOptions(chunks: seq<string>, lastIndex: nat, k: nat)
    requires k < |chunks|
    ensures ParseChunks(chunks, lastIndex)[k].fieldOptions == OptionsAt(chunks, lastIndex, k)
  {
  }

  /** Descriptor `k` carries its chunk's options exactly when an option
      line starts at or after the `lastIndex` threaded to it. */
  lemma ParseChunksThreaded(chunks: seq<string>, lastIndex: nat, k: nat)
    requires k < |chunks|
    ensures ParseChunks(chunks, lastIndex)[k].fieldOptions
         == if OccursFrom(chunks[k], OptionPrefix, LastIndexes(chunks, lastIndex)[k])
            then GetFieldOptions(chunks[k]) else []
  {
    ParseChunksOptions(chunks, lastIndex, k);
    TestsThreaded(chunks, lastIndex, k);
  }

  /** The chunks after the first `---`: with the text before it they make
      up the whole dump, and none contains the separator. */
  function Chunks(text: string): (cs: seq<string>)
    ensures |cs| == |Split(text, Separator)| - 1
    ensures Join([Split(text, Separator)[0]] + cs, Separator) == text
    ensures forall k :: 0 <= k < |cs| ==> !OccursFrom(cs[k], Separator, 0)
  {
    var parts := Split(text, Separator);
    SplitPiecesFree(text, Separator);
    assert [parts[0]] + parts[1..] == parts;
    parts[1..]
  }

  /** The `end` handler of `generateFieldJson`: descriptors for the chunks of
      the complete dump text, in order. */
  function ParseDump(text: string): (fs: seq<FormField>)
    ensures |fs| == |Split(text, Separator)| - 1
    ensures forall k :: 0 <= k < |fs| ==> DescribesChunk(fs[k], Split(text, Separator)[k + 1])
  {
    ParseChunks(Chunks(text), 0)
  }

  // ---------------------------------------------------------------------------
  // The shared lastIndex

  /** The option test starts afresh at the first chunk, so the first
      descriptor carries every option of its chunk. */
  lemma FirstChunkOptions(chunks: seq<string>)
    requires |chunks| > 0
    ensures ParseChunks(chunks, 0)[0].fieldOptions == GetFieldOptions(chunks[0])
  {
    var t := TestOptions(chunks[0], 0);
    if !t.0 {
      assert !OccursFrom(chunks[0], OptionPrefix, 0);
    }
  }

  /** A chunk without an option line gets no options. */
  lemma NoOptionLineNoOptions(chunks: seq<string>, lastIndex: nat, k: nat)
    requires k < |chunks| && !OccursFrom(chunks[k], OptionPrefix, 0)
    ensures ParseChunks(chunks, lastIndex)[k].fieldOptions == []
  {
    var f := ParseChunks(chunks, lastIndex)[k];
    assert DescribesChunk(f, chunks[k]);
  }

  /** After a failed test the next one searches its chunk from the start. */
  lemma {:induction false} TestsReset(chunks: seq<string>, lastIndex: nat, k: nat)
    requires k + 1 < |chunks| && !Tests(chunks, lastIndex)[k]
    ensures Tests(chunks, lastIndex)[k + 1] == OccursFrom(chunks[k + 1], OptionPrefix, 0)
    decreases k
  {
    var t := TestOptions(chunks[0], lastIndex);
    if k > 0 {
      TestsReset(chunks[1..], t.1, k - 1);
    }
  }

  /** The test after a failure gives its chunk all of its options. */
  lemma TestsAfterEmpty(chunks: seq<string>, lastIndex: nat, k: nat)
    requires k + 1 < |chunks|
    requires OptionsAt(chunks, lastIndex, k) == []
    ensures OptionsAt(chunks, lastIndex, k + 1) == GetFieldOptions(chunks[k + 1])
  {
    TestsReset(chunks, lastIndex, k);
  }

  /** A descriptor without options records a test that gave none. */
  lemma NoOptionsRecorded(chunks: seq<string>, lastIndex: nat, k: nat)
    requires k < |chunks|
    requires ParseChunks(chunks, lastIndex)[k].fieldOptions == []
    ensures OptionsAt(chunks, lastIndex, k) == []
  {
    var bs := Tests(chunks, lastIndex);
    assert ParseChunks(chunks, lastIndex)[k] == Describe(chunks[k], bs[k]);
  }

  /** Options the test gives a chunk end up in its descriptor. */
  lemma OptionsRecorded(chunks: seq<string>, lastIndex: nat, k: nat)
    requires k + 1 < |chunks|
    requires OptionsAt(chunks, lastIndex, k + 1) == GetFieldOptions(chunks[k + 1])
    ensures ParseChunks(chunks, lastIndex)[k + 1].fieldOptions == GetFieldOptions(chunks[k + 1])
  {
    var bs := Tests(chunks, lastIndex);
    assert ParseChunks(chunks, lastIndex)[k + 1] == Describe(chunks[k + 1], bs[k + 1]);
  }

  /** A failed test resets `lastIndex` to 0: after a descriptor with no
      options, the next one carries every option of its chunk. */
  lemma ResetAfterFailure(chunks: seq<string>, lastIndex: nat, k: nat)
    requires k + 1 < |chunks|
    requires ParseChunks(chunks, lastIndex)[k].fieldOptions == []
    ensures ParseChunks(chunks, lastIndex)[k + 1].fieldOptions == GetFieldOptions(chunks[k + 1])
  {
    NoOptionsRecorded(chunks, lastIndex, k);
    TestsAfterEmpty(chunks, lastIndex, k);
    OptionsRecorded(chunks, lastIndex, k);
  }

  /** The test only looks at or after `lastIndex`: when every option line of
      the chunk starts before it, the chunk gets no options. */
  lemma StaleLastIndexDropsOptions(chunks: seq<string>, lastIndex: nat)
    requires |chunks| > 0
    requires forall i: nat :: StartsAt(chunks[0], i, OptionPrefix) ==> i < lastIndex
    ensures ParseChunks(chunks, lastIndex)[0].fieldOptions == []
  {
  }

  /** A successful test leaves `lastIndex` at the end of the matched line,
      so the next chunk is searched only from there: when all of its option
      lines start earlier, it gets no options although it has some. */
  lemma SuccessHidesEarlierLines(a: string, b: string, rest: seq<string>, lastIndex: nat)
    requires TestOptions(a, lastIndex).0
    requires forall i: nat :: StartsAt(b, i, OptionPrefix) ==> i < TestOptions(a, lastIndex).1
    ensures ParseChunks([a, b] + rest, lastIndex)[0].fieldOptions == GetFieldOptions(a)
    ensures ParseChunks([a, b] + rest, lastIndex)[1].fieldOptions == []
  {
    var chunks := [a, b] + rest;
    var t := TestOptions(a, lastIndex);
    assert chunks[0] == a && chunks[1..] == [b] + rest;
    assert Tests(chunks, lastIndex) == [true] + Tests([b] + rest, t.1);
    assert !TestOptions(b, t.1).0;
    assert Tests([b] + rest, t.1)[0] == false;
    ParseChunksOptions(chunks, lastIndex, 0);
    ParseChunksOptions(chunks, lastIndex, 1);
  }

  /** A chunk that is one option line: the test from 0 matches the whole
      chunk, and the options are the trimmed rest of the line. */
  lemma SingleOptionLine(g: string)
    requires '\n' !in g
    ensures TestOptions(OptionPrefix + g, 0) == (true, |OptionPrefix + g|)
    ensures GetFieldOptions(OptionPrefix + g) == [Trim(g)]
  {
    var c := OptionPrefix + g;
    assert c[..|OptionPrefix|] == OptionPrefix;
    assert c[|OptionPrefix|..|c|] == c[|OptionPrefix|..] == g;
    LineEndUnique(c, |OptionPrefix|, |c|);
    assert FindFrom(c, OptionPrefix, 0) == Some(0);
    assert c[0..|c|] == c;
    var ms := OptionMatches(c, 0);
    assert ms == [c] + OptionMatches(c, |c|);
    assert ms == [c];
    assert OptionValues(ms) == [Trim(g)];
    var r := GetFieldOptions(c);
    assert r[0] in multiset(r);
  }

  /** An option line at `i`, the first at or after `from`, is the next match. */
  lemma OptionLineAt(c: string, from: nat, i: nat, e: nat)
    requires from <= i && StartsAt(c, i, OptionPrefix)
    requires forall j: nat :: from <= j < i ==> !StartsAt(c, j, OptionPrefix)
    requires i + |OptionPrefix| <= e <= |c| && '\n' !in c[i + |OptionPrefix|..e]
    requires e == |c| || c[e] == '\n'
    ensures OptionMatches(c, from) == [c[i..e]] + OptionMatches(c, e)
  {
    FindFromAt(c, OptionPrefix, from, i);
    LineEndUnique(c, i + |OptionPrefix|, e);
  }

  /** The slices of a two-line chunk the option scan looks at. */
  lemma TwoLineSlices(g1: string, g2: string)
    ensures var m1, m2 := OptionPrefix + g1, OptionPrefix + g2;
      var c := m1 + ("\n" + m2);
      var n, e1 := |OptionPrefix|, |m1|;
      && c[0..n] == OptionPrefix && c[n..e1] == g1 && c[0..e1] == m1 && c[e1] == '\n'
      && c[e1 + 1..e1 + 1 + n] == OptionPrefix && c[e1 + 1 + n..|c|] == g2 && c[e1 + 1..|c|] == m2
  {
    var m1, m2 := OptionPrefix + g1, OptionPrefix + g2;
    var c := m1 + ("\n" + m2);
    var n, e1 := |OptionPrefix|, |m1|;
    assert c[..e1] == m1;
    assert c[e1 + 1..] == m2;
    assert m1[..n] == OptionPrefix && m1[n..] == g1;
    assert m2[..n] == OptionPrefix && m2[n..] == g2;
  }

  /** The first line of a two-line chunk is its first option match. */
  lemma FirstOfTwoLines(g1: string, g2: string)
    requires '\n' !in g1
    ensures var m1, m2 := OptionPrefix + g1, OptionPrefix + g2;
      OptionMatches(m1 + ("\n" + m2), 0) == [m1] + OptionMatches(m1 + ("\n" + m2), |m1|)
  {
    var m1, m2 := OptionPrefix + g1, OptionPrefix + g2;
    var c := m1 + ("\n" + m2);
    TwoLineSlices(g1, g2);
    OptionLineAt(c, 0, 0, |m1|);
  }

  /** After the first line, the scan finds the second line and nothing
      more. */
  lemma SecondOfTwoLines(g1: string, g2: string)
    requires '\n' !in g2
    ensures var m1, m2 := OptionPrefix + g1, OptionPrefix + g2;
      OptionMatches(m1 + ("\n" + m2), |m1|) == [m2]
  {
    var m1, m2 := OptionPrefix + g1, OptionPrefix + g2;
    var c := m1 + ("\n" + m2);
    var e1 := |m1|;
    TwoLineSlices(g1, g2);
    assert !StartsAt(c, e1, OptionPrefix) by {
      assert OptionPrefix[0] == 'F';
      assert c[e1] == '\n';
      assert c[e1..e1 + |OptionPrefix|][0] == c[e1];
    }
    assert forall j: nat :: e1 <= j < e1 + 1 ==> !StartsAt(c, j, OptionPrefix);
    OptionLineAt(c, e1, e1 + 1, |c|);
    assert OptionMatches(c, |c|) == [];
  }

  /** A two-line chunk has exactly its two lines as option matches. */
  lemma TwoLineMatches(g1: string, g2: string)
    requires '\n' !in g1 && '\n' !in g2
    ensures var m1, m2 := OptionPrefix + g1, OptionPrefix + g2;
      OptionMatches(m1 + ("\n" + m2), 0) == [m1, m2]
  {
    FirstOfTwoLines(g1, g2);
    SecondOfTwoLines(g1, g2);
  }

  /** The values of two option lines are their trimmed rests. */
  lemma TwoLineValues(g1: string, g2: string)
    requires '\n' !in g1 && '\n' !in g2
    ensures var m1, m2 := OptionPrefix + g1, OptionPrefix + g2;
      IsOptionMatch(m1) && IsOptionMatch(m2) && OptionValues([m1, m2]) == [Trim(g1), Trim(g2)]
  {
    var m1, m2 := OptionPrefix + g1, OptionPrefix + g2;
    assert m1[..|OptionPrefix|] == OptionPrefix && m1[|OptionPrefix|..] == g1;
    assert m2[..|OptionPrefix|] == OptionPrefix && m2[|OptionPrefix|..] == g2;
    assert '\n' !in OptionPrefix;
  }

  /** A chunk of two option lines: the options are both trimmed values,
      sorted. */
  lemma TwoOptionLines(g1: string, g2: string)
    requires '\n' !in g1 && '\n' !in g2
    ensures var c := (OptionPrefix + g1) + ("\n" + (OptionPrefix + g2));
      && Sorting.Sorted(GetFieldOptions(c))
      && multiset(GetFieldOptions(c)) == multiset{Trim(g1), Trim(g2)}
  {
    var m1, m2 := OptionPrefix + g1, OptionPrefix + g2;
    TwoLineMatches(g1, g2);
    TwoLineValues(g1, g2);
    var vs := OptionValues(OptionMatches(m1 + ("\n" + m2), 0));
    assert vs == [Trim(g1), Trim(g2)];
    assert multiset(vs) == multiset{Trim(g1), Trim(g2)};
  }

  /** The only ascending arrangement of `Yes` and `Off`. */
  lemma OffYesSorted(r: seq<string>)
    requires Sorting.Sorted(r) && multiset(r) == multiset{"Yes", "Off"}
    ensures r == ["Off", "Yes"]
  {
    assert Sorting.LexLe("Off", "Yes");
    assert multiset(["Off", "Yes"]) == multiset{"Yes", "Off"};
    Sorting.SortedUnique(r, ["Off", "Yes"]);
  }

  /** Any ascending arrangement of the trimmed `Yes` and `Off`. The two
      words come in as parameters fixed by `requires` rather than as literals
      in the contract: literals there make the verifier unfold `Trim` and the
      option scan over every character of the sample. */
  lemma OffYesArranged(yes: string, off: string, r: seq<string>)
    requires yes == "Yes" && off == "Off"
    requires Sorting.Sorted(r) && multiset(r) == multiset{Trim(yes), Trim(off)}
    ensures r == ["Off", "Yes"]
  {
    TrimmedStays(yes);
    TrimmedStays(off);
    OffYesSorted(r);
  }

  /** The sample form's radio buttons: the option lines `Yes` then `Off`
      give `["Off", "Yes"]`. As in `OffYesArranged`, the words are parameters
      fixed by `requires` to keep the literals out of the contract. */
  lemma OffYesOptions(yes: string, off: string)
    requires yes == "Yes" && off == "Off"
    ensures GetFieldOptions((OptionPrefix + yes) + ("\n" + (OptionPrefix + off))) == ["Off", "Yes"]
  {
    TwoOptionLines(yes, off);
    OffYesArranged(yes, off, GetFieldOptions((OptionPrefix + yes) + ("\n" + (OptionPrefix + off))));
  }

  /** The same chunk twice in a row: the first copy's match leaves
      `lastIndex` at the end of its only option line, so the second copy,
      identical, gets no options. */
  lemma RepeatedChunkLosesOptions(g: string)
    requires '\n' !in g
    ensures var c := OptionPrefix + g;
      && ParseChunks([c, c], 0)[0].fieldOptions == [Trim(g)]
      && ParseChunks([c, c], 0)[1].fieldOptions == []
  {
    var c := OptionPrefix + g;
    SingleOptionLine(g);
    assert FindFrom(c, OptionPrefix, |c|) == None;
    assert TestOptions(c, |c|) == (false, 0);
    assert [c, c][1..] == [c] && [c][1..] == [];
    assert Tests([c], |c|) == [false] + Tests([], 0);
    assert Tests([c, c], 0) == [true] + Tests([c], |c|);
    ParseChunksOptions([c, c], 0, 0);
    ParseChunksOptions([c, c], 0, 1);
  }

  /** Text without a dash holds no separator. */
  lemma NoDashNoSeparator(s: string)
    requires '-' !in s
    ensures Split(s, Separator) == [s]
  {
    forall j: nat | j + |Separator| <= |s| ensures !StartsAt(s, j, Separator) {
      assert s[j..j + |Separator|][0] == s[j] != '-';
    }
  }

  /** Two dash-free chunks joined and introduced by separators split back
      into exactly those chunks. */
  lemma SplitTwoChunks(c: string)
    requires '-' !in c
    ensures Chunks(Separator + (c + (Separator + c))) == [c, c]
  {
    var x := c + (Separator + c);
    var text := Separator + x;
    assert StartsAt(text, 0, Separator);
    assert FindFrom(text, Separator, 0) == Some(0);
    assert text[..0] == [] && text[3..] == x;
    assert StartsAt(x, |c|, Separator);
    forall j: nat | j < |c| ensures !StartsAt(x, j, Separator) {
      assert x[j] == c[j] != '-';
      if j + |Separator| <= |x| {
        assert x[j..j + |Separator|][0] == x[j];
      }
    }
    FindFromAt(x, Separator, 0, |c|);
    assert x[..|c|] == c && x[|c| + 3..] == c;
    NoDashNoSeparator(c);
    assert Split(x, Separator) == [c] + Split(c, Separator) == [c, c];
    assert Split(text, Separator) == [[]] + Split(x, Separator);
  }

  /** The finding on a complete dump: the same one-line chunk twice after
      separators gives two descriptors, and only the first has options. */
  lemma DumpOfRepeatedChunk(g: string)
    requires '\n' !in g && '-' !in g
    ensures var c := OptionPrefix + g;
      var fs := ParseDump(Separator + (c + (Separator + c)));
      && |fs| == 2
      && fs[0].fieldOptions == [Trim(g)]
      && fs[1].fieldOptions == []
  {
    var c := OptionPrefix + g;
    assert '-' !in c;
    SplitTwoChunks(c);
    RepeatedChunkLosesOptions(g);
  }

  /** The corrected parser: the option test without shared state, so that
      every chunk carries every option it has. */
  function ParseDumpIntended(text: string): (fs: seq<FormField>)
    ensures |fs| == |Split(text, Separator)| - 1
    ensures forall k :: 0 <= k < |fs| ==> DescribesChunk(fs[k], Split(text, Separator)[k + 1])
    ensures forall k :: 0 <= k < |fs| ==> fs[k].fieldOptions == GetFieldOptions(Split(text, Separator)[k + 1])
  {
    var chunks := Chunks(text);
    seq(|chunks|, k requires 0 <= k < |chunks| => Describe(chunks[k], true))
  }

  /** The two parsers agree on everything except options that the shared
      `lastIndex` made the code drop. */
  lemma AsWrittenDropsOnlyOptions(text: string, k: nat)
    requires k < |ParseDump(text)|
    ensures ParseDump(text)[k] == ParseDumpIntended(text)[k]
         || ParseDump(text)[k] == ParseDumpIntended(text)[k].(fieldOptions := [])
  {
  }

  /** A descriptor without options comes from a failed test: a successful
      one finds an option line, so the chunk has options. */
  lemma FailedWhenEmpty(chunks: seq<string>, lastIndex: nat, k: nat)
    requires k < |chunks| && OptionsAt(chunks, lastIndex, k) == []
    ensures !Tests(chunks, lastIndex)[k]
  {
  }

  /** The first test searches its chunk from the start. */
  lemma FirstTest(chunks: seq<string>)
    requires |chunks| > 0
    ensures Tests(chunks, 0)[0] == OccursFrom(chunks[0], OptionPrefix, 0)
  {
    var t := TestOptions(chunks[0], 0);
    assert Tests(chunks, 0)[0] == t.0;
  }

  /** After a descriptor without options, the test searches the next chunk
      from the start. */
  lemma ResetTest(chunks: seq<string>, k: nat)
    requires k + 1 < |chunks|
    requires OptionsAt(chunks, 0, k) == []
    ensures Tests(chunks, 0)[k + 1] == OccursFrom(chunks[k + 1], OptionPrefix, 0)
  {
    FailedWhenEmpty(chunks, 0, k);
    TestsReset(chunks, 0, k);
  }

  /** The test of the first chunk, and of a chunk right after one that
      got no options, starts from 0. */
  lemma TestFromStart(chunks: seq<string>, k: nat)
    requires k < |chunks|
    requires k == 0 || OptionsAt(chunks, 0, k - 1) == []
    ensures Tests(chunks, 0)[k] == OccursFrom(chunks[k], OptionPrefix, 0)
  {
    if k == 0 {
      FirstTest(chunks);
    } else {
      var j := k - 1;
      ResetTest(chunks, j);
      assert j + 1 == k;
    }
  }

  /** A failed test costs nothing when the chunk has no option line. */
  lemma DescribeAgrees(chunk: string, b: bool)
    requires b == OccursFrom(chunk, OptionPrefix, 0)
    ensures Describe(chunk, b) == Describe(chunk, true)
  {
  }

  /** Where the shared `lastIndex` is 0 (the first chunk, or right after a
      descriptor without options) the code gives the corrected
      descriptor. */
  lemma AsWrittenAgreesAfterReset(text: string, k: nat)
    requires k < |ParseDump(text)|
    requires k == 0 || ParseDump(text)[k - 1].fieldOptions == []
    ensures ParseDump(text)[k] == ParseDumpIntended(text)[k]
  {
    var chunks := Chunks(text);
    if k > 0 {
      ParseChunksOptions(chunks, 0, k - 1);
    }
    TestFromStart(chunks, k);
    var b := Tests(chunks, 0)[k];
    DescribeAgrees(chunks[k], b);
    assert ParseDump(text)[k] == Describe(chunks[k], b);
    assert ParseDumpIntended(text)[k] == Describe(chunks[k], true);
  }
}
