/*
 * The text transforms of cmd/get-til/main.go, over input already split into lines:
 * extracting the "# わかったこと" section of a post, converting its bullet list to Cosense
 * (tab-indented) lines, and rewriting markdown links as Cosense links.
 */
module GetTil {

  datatype Option<T> = None | Some(value: T)

  /** The heading whose section the extractor keeps. */
  const TilHeading: string := "# わかったこと"

  /** Go's `unicode.IsSpace`, which `strings.TrimSpace` trims. */
  predicate IsSpace(c: char) {
    || c == '\t' || c == '\n' || c == '\U{000B}' || c == '\U{000C}' || c == '\r' || c == ' '
    || c == '\U{0085}' || c == '\U{00A0}' || c == '\U{1680}'
    || ('\U{2000}' <= c <= '\U{200A}')
    || c == '\U{2028}' || c == '\U{2029}' || c == '\U{202F}' || c == '\U{205F}' || c == '\U{3000}'
  }

  /** `strings.TrimSpace(line) == ""`. */
  predicate IsBlank(line: string) {
    forall k :: 0 <= k < |line| ==> IsSpace(line[k])
  }

  predicate HasPrefix(s: string, prefix: string) {
    |prefix| <= |s| && s[..|prefix|] == prefix
  }

  /** A heading line other than the TIL heading: it ends the TIL section. */
  predicate IsOtherHeading(line: string) {
    HasPrefix(line, "#") && line != TilHeading
  }

  /** A line of the section that is written out: neither blank nor the TIL heading again. */
  predicate Keep(line: string) {
    !IsBlank(line) && line != TilHeading
  }

  // ---------------------------------------------------------------------------------------------
  // extractTILSection

  /** The first TIL heading at or after `from`. */
  function FindHeading(lines: seq<string>, from: nat): (r: Option<nat>)
    requires from <= |lines|
    ensures r.Some? ==> from <= r.value < |lines| && lines[r.value] == TilHeading
    ensures r.Some? ==> forall k :: from <= k < r.value ==> lines[k] != TilHeading
    ensures r.None? ==> forall k :: from <= k < |lines| ==> lines[k] != TilHeading
    decreases |lines| - from
  {
    if from == |lines| then None
    else if lines[from] == TilHeading then Some(from)
    else FindHeading(lines, from + 1)
  }

  /** The first other heading at or after `from`, or the end of the input: where the section stops. */
  function SectionEnd(lines: seq<string>, from: nat): (e: nat)
    requires from <= |lines|
    ensures from <= e <= |lines|
    ensures e < |lines| ==> IsOtherHeading(lines[e])
    ensures forall k :: from <= k < e ==> !IsOtherHeading(lines[k])
    decreases |lines| - from
  {
    if from == |lines| then from
    else if IsOtherHeading(lines[from]) then from
    else SectionEnd(lines, from + 1)
  }

  /** The kept lines among `lines[a..b]`, in order, each indented by two spaces. */
  function Kept(lines: seq<string>, a: nat, b: nat): seq<string>
    requires a <= b <= |lines|
    decreases b
  {
    if a == b then []
    else Kept(lines, a, b - 1) + (if Keep(lines[b - 1]) then ["  " + lines[b - 1]] else [])
  }

  /**
   * What the extractor writes: the title as a bullet, then the kept lines between the first TIL
   * heading and the next other heading.
   */
  function Extract(lines: seq<string>, title: string): (r: seq<string>)
    ensures |r| >= 1 && r[0] == "- " + title
  {
    ["- " + title] +
      match FindHeading(lines, 0)
      case None => []
      case Some(h) => Kept(lines, h + 1, SectionEnd(lines, h + 1))
  }

  /** `extractTILSection`: a two-state (collecting or not) filter over the lines. */
  method ExtractTILSection(lines: seq<string>, title: string) returns (out: seq<string>)
    ensures out == Extract(lines, title)
  {
    var collect := false;
    out := ["- " + title];
    ghost var h: nat := 0;
    var i := 0;
    while i < |lines|
      invariant 0 <= i <= |lines|
      invariant !collect ==> FindHeading(lines, 0) == FindHeading(lines, i) && out == ["- " + title]
      invariant collect ==> h < i && FindHeading(lines, 0) == Some(h)
      invariant collect ==> SectionEnd(lines, h + 1) >= i && out == ["- " + title] + Kept(lines, h + 1, i)
    {
      var line := lines[i];
      if IsBlank(line) {
        BlankIsNoHeading(line);
        assert collect ==> Kept(lines, h + 1, i + 1) == Kept(lines, h + 1, i);
        i := i + 1;
        continue;
      }
      if HasPrefix(line, "#") && line != TilHeading {
        if collect {
          break;
        }
      }
      if line == TilHeading {
        if !collect {
          h := i;
        } else {
          assert Kept(lines, h + 1, i + 1) == Kept(lines, h + 1, i);
        }
        collect := true;
        i := i + 1;
        continue;
      }
      if collect {
        assert Kept(lines, h + 1, i + 1) == Kept(lines, h + 1, i) + ["  " + line];
        out := out + ["  " + line];
      }
      i := i + 1;
    }
  }

  /** A blank line is neither the TIL heading nor another heading. */
  lemma {:induction false} BlankIsNoHeading(line: string)
    requires IsBlank(line)
    ensures line != TilHeading && !IsOtherHeading(line)
  {
    if line != [] {
      assert !IsSpace(TilHeading[0]);
      assert IsSpace(line[0]);
    }
  }

  /** The kept lines of two adjacent ranges, in order: kept lines keep their input order. */
  lemma {:induction false} KeptConcat(lines: seq<string>, a: nat, b: nat, c: nat)
    requires a <= b <= c <= |lines|
    ensures Kept(lines, a, c) == Kept(lines, a, b) + Kept(lines, b, c)
    decreases c
  {
    if b < c {
      KeptConcat(lines, a, b, c - 1);
    }
  }

  /** Every line of `Kept(lines, a, b)` is a kept line of the range, indented by two spaces. */
  lemma {:induction false} KeptSource(lines: seq<string>, a: nat, b: nat, k: nat) returns (j: nat)
    requires a <= b <= |lines| && k < |Kept(lines, a, b)|
    ensures a <= j < b && Keep(lines[j]) && Kept(lines, a, b)[k] == "  " + lines[j]
    decreases b
  {
    var init := Kept(lines, a, b - 1);
    if k < |init| {
      j := KeptSource(lines, a, b - 1, k);
    } else {
      j := b - 1;
    }
  }

  /**
   * Every line written after the title comes from a line after the first TIL heading, with no
   * other heading up to it, that is neither blank nor the TIL heading itself.
   */
  lemma {:induction false} Emitted(lines: seq<string>, title: string, k: nat) returns (h: nat, j: nat)
    requires 1 <= k < |Extract(lines, title)|
    ensures h < j < |lines|
    ensures lines[h] == TilHeading && forall i :: 0 <= i < h ==> lines[i] != TilHeading
    ensures forall i :: h < i <= j ==> !IsOtherHeading(lines[i])
    ensures !IsBlank(lines[j]) && lines[j] != TilHeading
    ensures Extract(lines, title)[k] == "  " + lines[j]
  {
    h := FindHeading(lines, 0).value;
    var e := SectionEnd(lines, h + 1);
    j := KeptSource(lines, h + 1, e, k - 1);
  }

  /** Without a TIL heading only the title is written. */
  lemma {:induction false} NoHeading(lines: seq<string>, title: string)
    requires forall k :: 0 <= k < |lines| ==> lines[k] != TilHeading
    ensures Extract(lines, title) == ["- " + title]
  {
    assert FindHeading(lines, 0).None?;
  }

  /** Once the section has ended, whatever follows the input is ignored. */
  lemma {:induction false} StopsForGood(lines: seq<string>, rest: seq<string>, title: string)
    requires FindHeading(lines, 0).Some?
    requires SectionEnd(lines, FindHeading(lines, 0).value + 1) < |lines|
    ensures Extract(lines + rest, title) == Extract(lines, title)
  {
    var h := FindHeading(lines, 0).value;
    var e := SectionEnd(lines, h + 1);
    FindHeadingPrefix(lines, rest, 0);
    SectionEndPrefix(lines, rest, h + 1);
    KeptPrefix(lines, rest, h + 1, e);
    ExtractSection(lines + rest, title, h, e);
    ExtractSection(lines, title, h, e);
  }

  lemma {:induction false} FindHeadingPrefix(lines: seq<string>, rest: seq<string>, from: nat)
    requires from <= |lines| && FindHeading(lines, from).Some?
    ensures FindHeading(lines + rest, from) == FindHeading(lines, from)
    decreases |lines| - from
  {
    assert (lines + rest)[from] == lines[from];
    if lines[from] != TilHeading {
      FindHeadingPrefix(lines, rest, from + 1);
    }
  }

  lemma {:induction false} SectionEndPrefix(lines: seq<string>, rest: seq<string>, from: nat)
    requires from <= |lines| && SectionEnd(lines, from) < |lines|
    ensures SectionEnd(lines + rest, from) == SectionEnd(lines, from)
    decreases |lines| - from
  {
    assert (lines + rest)[from] == lines[from];
    if !IsOtherHeading(lines[from]) {
      SectionEndPrefix(lines, rest, from + 1);
    }
  }

  lemma {:induction false} KeptPrefix(lines: seq<string>, rest: seq<string>, a: nat, b: nat)
    requires a <= b <= |lines|
    ensures Kept(lines + rest, a, b) == Kept(lines, a, b)
    decreases b
  {
    if a < b {
      assert (lines + rest)[b - 1] == lines[b - 1];
      KeptPrefix(lines, rest, a, b - 1);
    }
  }

  /** What is written when the section runs from after line `h` up to line `e`. */
  lemma {:induction false} ExtractSection(lines: seq<string>, title: string, h: nat, e: nat)
    requires FindHeading(lines, 0) == Some(h) && SectionEnd(lines, h + 1) == e
    ensures Extract(lines, title) == ["- " + title] + Kept(lines, h + 1, e)
  {
  }

  /** `lines` with `line` inserted before index `k`. */
  function Insert(lines: seq<string>, k: nat, line: string): (r: seq<string>)
    requires k <= |lines|
    ensures |r| == |lines| + 1 && r[k] == line
  {
    lines[..k] + [line] + lines[k..]
  }

  /** Where line `j` of `lines` sits after an insertion before index `k`. */
  function Moved(k: nat, j: nat): nat {
    if j < k then j else j + 1
  }

  /** Where a scan from `j` starts after an insertion before index `k`: the inserted line is scanned too. */
  function Start(k: nat, j: nat): nat {
    if j <= k then j else j + 1
  }

  lemma {:induction false} InsertIndex(lines: seq<string>, k: nat, line: string, j: nat)
    requires k <= |lines| && j < |lines|
    ensures Insert(lines, k, line)[Moved(k, j)] == lines[j]
  {
  }

  /**
   * Inserting a line that is not the TIL heading, or is one but comes after the first TIL heading,
   * leaves the first TIL heading where it was, moved along by the insertion.
   */
  lemma {:induction false} FindHeadingInsert(lines: seq<string>, k: nat, line: string, from: nat)
    requires from <= |lines| && k <= |lines|
    requires line != TilHeading || (FindHeading(lines, from).Some? && FindHeading(lines, from).value < k)
    ensures FindHeading(Insert(lines, k, line), Start(k, from)) ==
      match FindHeading(lines, from)
      case None => None
      case Some(h) => Some(Moved(k, h))
    decreases |lines| - from
  {
    if from < |lines| {
      InsertIndex(lines, k, line, from);
      if lines[from] != TilHeading {
        FindHeadingInsert(lines, k, line, from + 1);
      }
    }
  }

  /** Inserting a line that is not another heading moves the end of the section along. */
  lemma {:induction false} SectionEndInsert(lines: seq<string>, k: nat, line: string, from: nat)
    requires from <= |lines| && k <= |lines| && !IsOtherHeading(line)
    ensures SectionEnd(Insert(lines, k, line), Start(k, from)) == Moved(k, SectionEnd(lines, from))
    decreases |lines| - from
  {
    if from < |lines| {
      InsertIndex(lines, k, line, from);
      if !IsOtherHeading(lines[from]) {
        SectionEndInsert(lines, k, line, from + 1);
      }
    }
  }

  /** Inserting a line that is not kept does not change the kept lines. */
  lemma {:induction false} KeptInsert(lines: seq<string>, k: nat, line: string, a: nat, b: nat)
    requires a <= b <= |lines| && k <= |lines| && !Keep(line)
    ensures Kept(Insert(lines, k, line), Start(k, a), Moved(k, b)) == Kept(lines, a, b)
    decreases b
  {
    var more := Insert(lines, k, line);
    if a < b {
      KeptInsert(lines, k, line, a, b - 1);
      InsertIndex(lines, k, line, b - 1);
      if b == k {
        assert Kept(more, Start(k, a), k + 1) == Kept(more, Start(k, a), k);
      }
    } else if a == k {
      assert Kept(more, k, k + 1) == Kept(more, k, k);
    }
  }

  /**
   * A blank line inserted anywhere, or the TIL heading inserted again after the first one, does
   * not change what is written: these are exactly the lines that are neither written nor end the
   * section.
   */
  lemma {:induction false} InsertIgnored(lines: seq<string>, k: nat, line: string, title: string)
    requires k <= |lines|
    requires IsBlank(line) || (line == TilHeading && FindHeading(lines, 0).Some? && FindHeading(lines, 0).value < k)
    ensures Extract(Insert(lines, k, line), title) == Extract(lines, title)
  {
    if IsBlank(line) {
      BlankIsNoHeading(line);
    }
    FindHeadingInsert(lines, k, line, 0);
    if FindHeading(lines, 0).Some? {
      InsertInSection(lines, k, line, title);
    } else {
      NoHeading(Insert(lines, k, line), title);
      NoHeading(lines, title);
    }
  }

  lemma {:induction false} InsertInSection(lines: seq<string>, k: nat, line: string, title: string)
    requires k <= |lines| && !IsOtherHeading(line) && !Keep(line) && FindHeading(lines, 0).Some?
    requires FindHeading(Insert(lines, k, line), 0) == Some(Moved(k, FindHeading(lines, 0).value))
    ensures Extract(Insert(lines, k, line), title) == Extract(lines, title)
  {
    var h := FindHeading(lines, 0).value;
    var e := SectionEnd(lines, h + 1);
    SectionEndInsert(lines, k, line, h + 1);
    KeptInsert(lines, k, line, h + 1, e);
    assert Moved(k, h) + 1 == Start(k, h + 1);
    ExtractSection(Insert(lines, k, line), title, Moved(k, h), Moved(k, e));
    ExtractSection(lines, title, h, e);
  }

  /** Any line but the TIL heading inserted before the first TIL heading does not change what is written. */
  lemma {:induction false} InsertBeforeHeading(lines: seq<string>, k: nat, line: string, title: string)
    requires k <= |lines| && line != TilHeading
    requires FindHeading(lines, 0).None? || k <= FindHeading(lines, 0).value
    ensures Extract(Insert(lines, k, line), title) == Extract(lines, title)
  {
    FindHeadingInsert(lines, k, line, 0);
    if FindHeading(lines, 0).Some? {
      var h := FindHeading(lines, 0).value;
      assert Moved(k, h) == h + 1;
      InsertBeforeSection(lines, k, line, title, h);
    } else {
      NoHeading(Insert(lines, k, line), title);
      NoHeading(lines, title);
    }
  }

  lemma {:induction false} InsertBeforeSection(lines: seq<string>, k: nat, line: string, title: string, h: nat)
    requires k <= h < |lines| && FindHeading(lines, 0) == Some(h)
    requires FindHeading(Insert(lines, k, line), 0) == Some(h + 1)
    ensures Extract(Insert(lines, k, line), title) == Extract(lines, title)
  {
    var e := SectionEnd(lines, h + 1);
    SectionEndShift(lines, k, line, h + 1);
    KeptShift(lines, k, line, h + 1, e);
    ExtractSection(Insert(lines, k, line), title, h + 1, e + 1);
    ExtractSection(lines, title, h, e);
  }

  /** A line inserted before `from` only moves the end of the section along. */
  lemma {:induction false} SectionEndShift(lines: seq<string>, k: nat, line: string, from: nat)
    requires k < from <= |lines|
    ensures SectionEnd(Insert(lines, k, line), from + 1) == SectionEnd(lines, from) + 1
    decreases |lines| - from
  {
    if from < |lines| {
      InsertIndex(lines, k, line, from);
      if !IsOtherHeading(lines[from]) {
        SectionEndShift(lines, k, line, from + 1);
      }
    }
  }

  /** A line inserted before `a` only moves the kept lines of `[a, b)` along. */
  lemma {:induction false} KeptShift(lines: seq<string>, k: nat, line: string, a: nat, b: nat)
    requires k < a <= b <= |lines|
    ensures Kept(Insert(lines, k, line), a + 1, b + 1) == Kept(lines, a, b)
    decreases b
  {
    if a < b {
      KeptShift(lines, k, line, a, b - 1);
      InsertIndex(lines, k, line, b - 1);
    }
  }

  // ---------------------------------------------------------------------------------------------
  // mdLinkToCosenseLink: the pattern `\[(.*?)\]\((.*?)\)`, where `.` is any character but '\n'

  /** No newline in `s[i..j]`: a `.*` group can span it. */
  predicate NoNewline(s: string, i: nat, j: nat)
    requires i <= j <= |s|
  {
    forall k :: i <= k < j ==> s[k] != '\n'
  }

  /**
   * `s[p..r + 1]` matches the pattern, with the text group `s[p + 1..q]` and the link group
   * `s[q + 2..r]`.
   */
  predicate IsMatch(s: string, p: nat, q: nat, r: nat) {
    && p < q && q + 2 <= r < |s|
    && s[p] == '[' && s[q] == ']' && s[q + 1] == '(' && s[r] == ')'
    && NoNewline(s, p + 1, q) && NoNewline(s, q + 2, r)
  }

  /** A match: where it starts, where its text group ends (at the `](`) and where its `)` is. */
  datatype Match = Match(start: nat, textEnd: nat, linkEnd: nat)

  /** The lazy text group from `i`: it ends at the first `](`, unless a newline comes first. */
  function TextEnd(s: string, i: nat): (r: Option<nat>)
    requires i <= |s|
    ensures r.Some? ==> i <= r.value && r.value + 1 < |s|
    decreases |s| - i
  {
    if i + 1 >= |s| then None
    else if s[i] == ']' && s[i + 1] == '(' then Some(i)
    else if s[i] == '\n' then None
    else TextEnd(s, i + 1)
  }

  /** `TextEnd` finds the first `](` from `i` with no newline before it, and only that. */
  lemma {:induction false} TextEndSpec(s: string, i: nat)
    requires i <= |s|
    ensures var r := TextEnd(s, i);
      && (r.Some? ==> s[r.value] == ']' && s[r.value + 1] == '(' && NoNewline(s, i, r.value))
      && (r.Some? ==> forall k :: i <= k < r.value ==> !(s[k] == ']' && s[k + 1] == '('))
      && (r.None? ==> forall k :: i <= k && k + 1 < |s| && NoNewline(s, i, k) ==> !(s[k] == ']' && s[k + 1] == '('))
    decreases |s| - i
  {
    if i + 1 < |s| && !(s[i] == ']' && s[i + 1] == '(') && s[i] != '\n' {
      TextEndSpec(s, i + 1);
      assert forall k :: i < k <= |s| && NoNewline(s, i, k) ==> NoNewline(s, i + 1, k);
    }
  }

  /** The lazy link group from `i`: it ends at the first `)`, unless a newline comes first. */
  function LinkEnd(s: string, i: nat): (r: Option<nat>)
    requires i <= |s|
    ensures r.Some? ==> i <= r.value < |s|
    decreases |s| - i
  {
    if i == |s| then None
    else if s[i] == ')' then Some(i)
    else if s[i] == '\n' then None
    else LinkEnd(s, i + 1)
  }

  /** `LinkEnd` finds the first `)` from `i` with no newline before it, and only that. */
  lemma {:induction false} LinkEndSpec(s: string, i: nat)
    requires i <= |s|
    ensures var r := LinkEnd(s, i);
      && (r.Some? ==> s[r.value] == ')' && NoNewline(s, i, r.value))
      && (r.Some? ==> forall k :: i <= k < r.value ==> s[k] != ')')
      && (r.None? ==> forall k :: i <= k < |s| && NoNewline(s, i, k) ==> s[k] != ')')
    decreases |s| - i
  {
    if i < |s| && s[i] != ')' && s[i] != '\n' {
      LinkEndSpec(s, i + 1);
      assert forall k :: i < k <= |s| && NoNewline(s, i, k) ==> NoNewline(s, i + 1, k);
    }
  }

  /** The match of the pattern starting at `p`, if any, with its lazy groups. */
  function MatchAt(s: string, p: nat): (r: Option<Match>)
    requires p <= |s|
    ensures r.Some? ==> r.value.start == p < r.value.textEnd && r.value.textEnd + 2 <= r.value.linkEnd < |s|
    ensures r.Some? ==> s[p] == '['
  {
    if p < |s| && s[p] == '[' then
      match TextEnd(s, p + 1)
      case None => None
      case Some(q) =>
        match LinkEnd(s, q + 2)
        case None => None
        case Some(e) => Some(Match(p, q, e))
    else None
  }

  /**
   * `MatchAt` agrees with the pattern: it finds a match from `p` exactly when there is one, and of
   * all the ways `s[p..]` can match, it picks the shortest text, then the shortest link, as the lazy
   * groups do.
   */
  lemma {:induction false} MatchAtSpec(s: string, p: nat)
    requires p <= |s|
    ensures var r := MatchAt(s, p);
      && (r.Some? ==> IsMatch(s, p, r.value.textEnd, r.value.linkEnd))
      && (r.Some? ==> forall q: nat, e: nat :: IsMatch(s, p, q, e) ==>
            r.value.textEnd < q || (r.value.textEnd == q && r.value.linkEnd <= e))
      && (r.None? ==> forall q: nat, e: nat :: !IsMatch(s, p, q, e))
  {
    if p < |s| && s[p] == '[' {
      TextEndSpec(s, p + 1);
      if TextEnd(s, p + 1).Some? {
        var q := TextEnd(s, p + 1).value;
        LinkEndSpec(s, q + 2);
        LinkAfterFirst(s, p, q);
      }
    }
  }

  /**
   * Every match from `p` has its text end at or after the first `](`, and its link is a stretch
   * without a newline from that first `](`: so when no `)` follows the first `](`, there is no match.
   */
  lemma {:induction false} LinkAfterFirst(s: string, p: nat, q: nat)
    requires p < |s| && TextEnd(s, p + 1) == Some(q)
    ensures forall q': nat, e: nat :: IsMatch(s, p, q', e) ==>
      q <= q' && q + 2 <= e && NoNewline(s, q + 2, e)
  {
    TextEndSpec(s, p + 1);
    forall q': nat, e: nat | IsMatch(s, p, q', e)
      ensures q <= q' && q + 2 <= e && NoNewline(s, q + 2, e)
    {
      assert NoNewline(s, p + 1, q');
      if q < q' {
        forall k | q + 2 <= k < e
          ensures s[k] != '\n'
        {
          if k >= q' + 2 {
            assert NoNewline(s, q' + 2, e);
          }
        }
      }
    }
  }

  /** The leftmost match at or after `i`. */
  function NextMatch(s: string, i: nat): (r: Option<Match>)
    requires i <= |s|
    ensures r.Some? ==> i <= r.value.start < |s| && MatchAt(s, r.value.start) == r
    ensures r.Some? ==> s[r.value.start] == '['
    decreases |s| - i
  {
    if i == |s| then None
    else if MatchAt(s, i).Some? then MatchAt(s, i)
    else NextMatch(s, i + 1)
  }

  /** `NextMatch` finds the leftmost position from `i` where a match starts, or that there is none. */
  lemma {:induction false} NextMatchSpec(s: string, i: nat)
    requires i <= |s|
    ensures var r := NextMatch(s, i);
      && (r.Some? ==> forall p :: i <= p < r.value.start ==> MatchAt(s, p).None?)
      && (r.None? ==> forall p :: i <= p <= |s| ==> MatchAt(s, p).None?)
    decreases |s| - i
  {
    if i < |s| && MatchAt(s, i).None? {
      NextMatchSpec(s, i + 1);
    }
  }

  /** A text end found before `e` is found the same in `s[p..e]`. */
  lemma {:induction false} TextEndSlice(s: string, p: nat, e: nat, i: nat)
    requires p + i <= e <= |s|
    ensures (TextEnd(s, p + i).Some? && TextEnd(s, p + i).value + 1 < e ==>
               TextEnd(s[p..e], i) == Some(TextEnd(s, p + i).value - p))
    decreases e - p - i
  {
    var t := s[p..e];
    if p + i + 1 < e {
      assert t[i] == s[p + i] && t[i + 1] == s[p + i + 1];
      if !(s[p + i] == ']' && s[p + i + 1] == '(') && s[p + i] != '\n' {
        TextEndSlice(s, p, e, i + 1);
      }
    }
  }

  /** A link end found before `e` is found the same in `s[p..e]`. */
  lemma {:induction false} LinkEndSlice(s: string, p: nat, e: nat, i: nat)
    requires p + i <= e <= |s|
    ensures (LinkEnd(s, p + i).Some? && LinkEnd(s, p + i).value < e ==>
               LinkEnd(s[p..e], i) == Some(LinkEnd(s, p + i).value - p))
    decreases e - p - i
  {
    var t := s[p..e];
    if p + i < e {
      assert t[i] == s[p + i];
      if s[p + i] != ')' && s[p + i] != '\n' {
        LinkEndSlice(s, p, e, i + 1);
      }
    }
  }

  /**
   * The callback runs the pattern again on the matched text: it finds the match at its start,
   * with the same groups.
   */
  lemma {:induction false} Rematch(s: string, p: nat)
    requires p <= |s| && MatchAt(s, p).Some?
    ensures var m := MatchAt(s, p).value;
      NextMatch(s[p..m.linkEnd + 1], 0) == Some(Match(0, m.textEnd - p, m.linkEnd - p))
  {
    var m := MatchAt(s, p).value;
    var t := s[p..m.linkEnd + 1];
    TextEndSlice(s, p, m.linkEnd + 1, 1);
    LinkEndSlice(s, p, m.linkEnd + 1, m.textEnd - p + 2);
    assert t[0] == '[';
  }

  /**
   * The Cosense link `[text link]`; a link not starting with "http" gets the team URL in front.
   * Both groups can be read back from their positions in the result.
   */
  function CosenseLink(text: string, link: string, teamUrl: string): (r: string)
    ensures |r| == |text| + |link| + 3 + (if HasPrefix(link, "http") then 0 else |teamUrl|)
    ensures r[0] == '[' && r[|text| + 1] == ' ' && r[|r| - 1] == ']'
  {
    "[" + text + " " + (if HasPrefix(link, "http") then link else teamUrl + link) + "]"
  }

  /** The text and the (possibly prefixed) link can be read back from their places in a Cosense link. */
  lemma {:induction false} CosenseLinkParts(text: string, link: string, teamUrl: string)
    ensures var r := CosenseLink(text, link, teamUrl);
      && r[1..|text| + 1] == text
      && (HasPrefix(link, "http") ==> r[|text| + 2..|r| - 1] == link)
      && (!HasPrefix(link, "http") ==> r[|text| + 2..|r| - 1] == teamUrl + link)
  {
    var full := if HasPrefix(link, "http") then link else teamUrl + link;
    var r := CosenseLink(text, link, teamUrl);
    assert r == "[" + text + " " + full + "]";
    assert r[1..|text| + 1] == text;
    assert r[|text| + 2..|r| - 1] == full;
  }

  /**
   * The callback on one matched text `m`: it runs the pattern again on `m` and builds the Cosense
   * link from the groups it finds; the guard on `|m|` always holds (see `Rematch`).
   */
  function Callback(m: string, teamUrl: string): (r: string)
    requires NextMatch(m, 0).Some?
    ensures |m| > 2 && |r| >= 3 && r[0] == '[' && r[|r| - 1] == ']'
  {
    var g := NextMatch(m, 0).value;
    if |m| > 2 then CosenseLink(m[g.start + 1..g.textEnd], m[g.textEnd + 2..g.linkEnd], teamUrl)
    else m
  }

  /** What replaces match `m` of `s`: the callback's result, with the groups read off `m` (see `CallbackAgrees`). */
  function Replacement(s: string, m: Match, teamUrl: string): string
    requires m.start < m.textEnd && m.textEnd + 2 <= m.linkEnd < |s|
  {
    CosenseLink(s[m.start + 1..m.textEnd], s[m.textEnd + 2..m.linkEnd], teamUrl)
  }

  /** `ReplaceAllStringFunc` from position `i`: the search resumes right after each match, in `s`. */
  function ReplaceFrom(s: string, teamUrl: string, i: nat): (r: string)
    requires i <= |s|
    ensures (forall k :: i <= k < |s| ==> s[k] != '[') ==> r == s[i..]
    decreases |s| - i
  {
    match NextMatch(s, i)
    case None => s[i..]
    case Some(m) => s[i..m.start] + Replacement(s, m, teamUrl) + ReplaceFrom(s, teamUrl, m.linkEnd + 1)
  }

  /** `mdLinkToCosenseLink`. */
  function MdLinkToCosenseLink(s: string, teamUrl: string): (r: string)
    ensures (forall k :: 0 <= k < |s| ==> s[k] != '[') ==> r == s
  {
    ReplaceFrom(s, teamUrl, 0)
  }

  /**
   * The callback, given the text of a match, returns its replacement: matching again finds the
   * same groups, and the guard `len(match) > 2` holds, since every match is at least `[]()` long.
   */
  lemma {:induction false} CallbackAgrees(s: string, i: nat, teamUrl: string)
    requires i <= |s| && NextMatch(s, i).Some?
    ensures var m := NextMatch(s, i).value;
      && |s[m.start..m.linkEnd + 1]| >= 4
      && NextMatch(s[m.start..m.linkEnd + 1], 0).Some?
      && Callback(s[m.start..m.linkEnd + 1], teamUrl) == Replacement(s, m, teamUrl)
  {
    var m := NextMatch(s, i).value;
    var t := s[m.start..m.linkEnd + 1];
    Rematch(s, m.start);
    var g := NextMatch(t, 0).value;
    CallbackOn(t, teamUrl, g);
    SameGroups(s, m, g, teamUrl);
  }

  /** The groups of the match found again in the matched text are the groups of the match. */
  lemma {:induction false} SameGroups(s: string, m: Match, g: Match, teamUrl: string)
    requires m.start < m.textEnd && m.textEnd + 2 <= m.linkEnd < |s|
    requires g == Match(0, m.textEnd - m.start, m.linkEnd - m.start)
    ensures var t := s[m.start..m.linkEnd + 1];
      CosenseLink(t[g.start + 1..g.textEnd], t[g.textEnd + 2..g.linkEnd], teamUrl) == Replacement(s, m, teamUrl)
  {
    SliceOfSlice(s, m.start, m.linkEnd + 1, g.start + 1, g.textEnd, m.start + 1, m.textEnd);
    SliceOfSlice(s, m.start, m.linkEnd + 1, g.textEnd + 2, g.linkEnd, m.textEnd + 2, m.linkEnd);
  }

  lemma {:induction false} CallbackOn(t: string, teamUrl: string, g: Match)
    requires NextMatch(t, 0) == Some(g) && |t| > 2
    ensures Callback(t, teamUrl) == CosenseLink(t[g.start + 1..g.textEnd], t[g.textEnd + 2..g.linkEnd], teamUrl)
  {
  }

  lemma {:induction false} SliceOfSlice(s: string, a: nat, b: nat, x: nat, y: nat, x': nat, y': nat)
    requires a <= b <= |s| && x <= y <= b - a && x' == a + x && y' == a + y
    ensures s[a..b][x..y] == s[x'..y']
  {
    assert forall k :: 0 <= k < y - x ==> s[a..b][x..y][k] == s[x'..y'][k];
  }

  /** Unfolding `ReplaceFrom` at a match. */
  lemma {:induction false} ReplaceStep(s: string, teamUrl: string, i: nat)
    requires i <= |s| && NextMatch(s, i).Some?
    ensures var m := NextMatch(s, i).value;
      ReplaceFrom(s, teamUrl, i) == s[i..m.start] + Replacement(s, m, teamUrl) + ReplaceFrom(s, teamUrl, m.linkEnd + 1)
  {
  }

  /** A line is left as it is exactly when the pattern matches nowhere in it. */
  lemma {:induction false} Unchanged(s: string, teamUrl: string)
    ensures MdLinkToCosenseLink(s, teamUrl) == s <==> forall p: nat, q: nat, e: nat :: !IsMatch(s, p, q, e)
  {
    NextMatchSpec(s, 0);
    match NextMatch(s, 0)
    case Some(m) =>
      MatchAtSpec(s, m.start);
      ReplaceStep(s, teamUrl, 0);
      ReplacedAt(s, m, teamUrl, ReplaceFrom(s, teamUrl, m.linkEnd + 1));
    case None =>
      forall p: nat, q: nat, e: nat
        ensures !IsMatch(s, p, q, e)
      {
        if p <= |s| {
          MatchAtSpec(s, p);
        }
      }
  }

  /** Where the `](` of a match was, its replacement has the space between text and link. */
  lemma {:induction false} ReplacedAt(s: string, m: Match, teamUrl: string, rest: string)
    requires m.start < m.textEnd && m.textEnd + 2 <= m.linkEnd < |s|
    ensures var out := s[..m.start] + Replacement(s, m, teamUrl) + rest;
      m.textEnd < |out| && out[m.textEnd] == ' '
  {
    var text := s[m.start + 1..m.textEnd];
    var link := s[m.textEnd + 2..m.linkEnd];
    var r := Replacement(s, m, teamUrl);
    assert r == "[" + text + " " + (if HasPrefix(link, "http") then link else teamUrl + link) + "]";
    assert r[|text| + 1] == ' ';
  }

  /** The text group from `i` ends at `q` when `q` is the first `](` and no newline comes before it. */
  lemma {:induction false} TextEndAt(s: string, i: nat, q: nat)
    requires i <= q && q + 1 < |s| && s[q] == ']' && s[q + 1] == '(' && NoNewline(s, i, q)
    requires forall k :: i <= k < q ==> !(s[k] == ']' && s[k + 1] == '(')
    ensures TextEnd(s, i) == Some(q)
  {
    TextEndSpec(s, i);
  }

  /** The link group from `i` ends at `e` when `e` is the first `)` and no newline comes before it. */
  lemma {:induction false} LinkEndAt(s: string, i: nat, e: nat)
    requires i <= e < |s| && s[e] == ')' && NoNewline(s, i, e)
    requires forall k :: i <= k < e ==> s[k] != ')'
    ensures LinkEnd(s, i) == Some(e)
  {
    LinkEndSpec(s, i);
  }

  /** With no `[` between `i` and `p`, and a match at `p`, the leftmost match from `i` is at `p`. */
  lemma {:induction false} NextMatchAt(s: string, i: nat, p: nat)
    requires i <= p <= |s| && MatchAt(s, p).Some?
    requires forall k :: i <= k < p ==> s[k] != '['
    ensures NextMatch(s, i) == MatchAt(s, p)
    decreases p - i
  {
    if i < p {
      NextMatchAt(s, i + 1, p);
    }
  }

  /** A line whose only `[` opens one well-formed link: just that link is rewritten. */
  lemma {:induction false} OneLink(s: string, teamUrl: string, a: nat, q: nat, e: nat)
    requires a < q && q + 2 <= e < |s|
    requires s[a] == '[' && s[q] == ']' && s[q + 1] == '(' && s[e] == ')'
    requires forall k :: 0 <= k < |s| && k != a ==> s[k] != '['
    requires NoNewline(s, a + 1, q) && forall k :: a + 1 <= k < q ==> !(s[k] == ']' && s[k + 1] == '(')
    requires NoNewline(s, q + 2, e) && forall k :: q + 2 <= k < e ==> s[k] != ')'
    ensures MdLinkToCosenseLink(s, teamUrl) == s[..a] + CosenseLink(s[a + 1..q], s[q + 2..e], teamUrl) + s[e + 1..]
  {
    OnlyMatch(s, a, q, e);
    ReplaceStep(s, teamUrl, 0);
    var tail := ReplaceFrom(s, teamUrl, e + 1);
    assert tail == s[e + 1..] by {
      assert forall k :: e + 1 <= k < |s| ==> s[k] != '[';
    }
    assert s[0..a] == s[..a];
  }

  /** The match of `OneLink` is the leftmost one. */
  lemma {:induction false} OnlyMatch(s: string, a: nat, q: nat, e: nat)
    requires a < q && q + 2 <= e < |s|
    requires s[a] == '[' && s[q] == ']' && s[q + 1] == '(' && s[e] == ')'
    requires forall k :: 0 <= k < a ==> s[k] != '['
    requires NoNewline(s, a + 1, q) && forall k :: a + 1 <= k < q ==> !(s[k] == ']' && s[k + 1] == '(')
    requires NoNewline(s, q + 2, e) && forall k :: q + 2 <= k < e ==> s[k] != ')'
    ensures NextMatch(s, 0) == Some(Match(a, q, e))
  {
    TextEndAt(s, a + 1, q);
    LinkEndAt(s, q + 2, e);
    NextMatchAt(s, 0, a);
  }

  /**
   * `[text](link)` between a prefix and a suffix without `[` becomes `[text link]`, the link kept
   * when it starts with "http" and put after the team URL otherwise; the rest is left as it is.
   */
  lemma {:induction false} SingleLink(pre: string, text: string, link: string, post: string, teamUrl: string)
    requires forall k :: 0 <= k < |pre| ==> pre[k] != '['
    requires forall k :: 0 <= k < |post| ==> post[k] != '['
    requires forall k :: 0 <= k < |text| ==> text[k] != '[' && text[k] != '\n'
    requires forall k :: 0 <= k && k + 1 < |text| ==> !(text[k] == ']' && text[k + 1] == '(')
    requires forall k :: 0 <= k < |link| ==> link[k] != '[' && link[k] != ')' && link[k] != '\n'
    ensures MdLinkToCosenseLink(pre + "[" + text + "](" + link + ")" + post, teamUrl) ==
      pre + ("[" + text + " " + (if HasPrefix(link, "http") then link else teamUrl + link) + "]") + post
  {
    var s := pre + "[" + text + "](" + link + ")" + post;
    var a := |pre|;
    var q := a + 1 + |text|;
    var e := q + 2 + |link|;
    assert forall k :: 0 <= k < a ==> s[k] == pre[k];
    assert forall k :: a < k < q ==> s[k] == text[k - a - 1];
    assert forall k :: q + 2 <= k < e ==> s[k] == link[k - q - 2];
    assert forall k :: e < k < |s| ==> s[k] == post[k - e - 1];
    assert s[a] == '[' && s[q] == ']' && s[q + 1] == '(' && s[e] == ')';
    assert s[..a] == pre && s[a + 1..q] == text && s[q + 2..e] == link && s[e + 1..] == post;
    OneLink(s, teamUrl, a, q, e);
  }

  // ---------------------------------------------------------------------------------------------
  // convertToConsenseFormat

  /** The characters `strings.TrimLeft(line, "- ")` strips. */
  predicate IsDashOrSpace(c: char) {
    c == '-' || c == ' '
  }

  /** Length of the leading run of `-` and space characters. */
  function LeadRun(s: string): (n: nat)
    ensures n <= |s|
    ensures forall k :: 0 <= k < n ==> IsDashOrSpace(s[k])
    ensures n < |s| ==> !IsDashOrSpace(s[n])
  {
    if |s| > 0 && IsDashOrSpace(s[0]) then
      var n := 1 + LeadRun(s[1..]);
      assert forall k :: 1 <= k < n ==> s[k] == s[1..][k - 1];
      n
    else 0
  }

  /** `strings.TrimLeft(s, "- ")`. */
  function TrimLeft(s: string): (t: string)
    ensures |s| - |t| == LeadRun(s)
  {
    s[LeadRun(s)..]
  }

  /** The line the converter compares its first line against. */
  const FirstPrev: string := "- TIL"

  function Sign(x: int): int {
    if x > 0 then 1 else if x < 0 then -1 else 0
  }

  /** One step of the indent rule: reset to 1 on an unindented line, else follow the run's change. */
  function NextLevel(level: int, run: nat, prevRun: nat): (l: int)
    ensures run == 0 ==> l == 1
    ensures run > 0 ==> l == level + Sign(run - prevRun)
  {
    if run > 0 then
      if run > prevRun then level + 1
      else if run < prevRun then level - 1
      else level
    else 1
  }

  /** The leading run of the line before line `i`. */
  function PrevRun(lines: seq<string>, i: nat): nat
    requires i < |lines|
  {
    if i == 0 then LeadRun(FirstPrev) else LeadRun(lines[i - 1])
  }

  /** The indent level the converter gives line `i`. */
  function Level(lines: seq<string>, i: nat): (l: int)
    requires i < |lines|
    ensures LeadRun(lines[i]) == 0 ==> l == 1
    ensures -(i as int) <= l <= i + 2
  {
    var before := if i == 0 then 1 else Level(lines, i - 1);
    NextLevel(before, LeadRun(lines[i]), PrevRun(lines, i))
  }

  /** `strings.Repeat` panics on a negative count: every level must be at least 0. */
  predicate NonNegativeLevels(lines: seq<string>) {
    forall i :: 0 <= i < |lines| ==> Level(lines, i) >= 0
  }

  /** `strings.Repeat("\t", n)`. */
  function Tabs(n: nat): (t: string)
    ensures |t| == n && forall k :: 0 <= k < n ==> t[k] == '\t'
  {
    seq(n, _ => '\t')
  }

  /** The output line for line `i`. */
  function Converted(lines: seq<string>, i: nat, teamUrl: string): string
    requires i < |lines| && Level(lines, i) >= 0
  {
    Tabs(Level(lines, i)) + MdLinkToCosenseLink(TrimLeft(lines[i]), teamUrl)
  }

  /** The converter's whole output. */
  function Convert(lines: seq<string>, teamUrl: string): (r: seq<string>)
    requires NonNegativeLevels(lines)
    ensures |r| == |lines|
  {
    seq(|lines|, i requires 0 <= i < |lines| => Converted(lines, i, teamUrl))
  }

  /** `convertToConsenseFormat`: one output line per input line, in order. */
  method ConvertToConsenseFormat(lines: seq<string>, teamUrl: string) returns (out: seq<string>)
    requires NonNegativeLevels(lines)
    ensures out == Convert(lines, teamUrl)
  {
    out := [];
    var prevLine := FirstPrev;
    var indentLevel := 1;
    var i := 0;
    while i < |lines|
      invariant 0 <= i <= |lines|
      invariant prevLine == if i == 0 then FirstPrev else lines[i - 1]
      invariant indentLevel == if i == 0 then 1 else Level(lines, i - 1)
      invariant |out| == i && forall k :: 0 <= k < i ==> out[k] == Converted(lines, k, teamUrl)
    {
      var currentLine := lines[i];
      var trimmedCurrentLine := TrimLeft(currentLine);
      var currentSpaces := |currentLine| - |trimmedCurrentLine|;
      var trimmedPrevLine := TrimLeft(prevLine);
      var prevSpaces := |prevLine| - |trimmedPrevLine|;
      assert currentSpaces == LeadRun(lines[i]) && prevSpaces == PrevRun(lines, i);
      if currentSpaces > 0 {
        if currentSpaces > prevSpaces {
          indentLevel := indentLevel + 1;
        } else if currentSpaces < prevSpaces {
          indentLevel := indentLevel - 1;
        }
      } else {
        indentLevel := 1;
      }
      assert indentLevel == Level(lines, i);
      var consensedLine := MdLinkToCosenseLink(trimmedCurrentLine, teamUrl);
      var indent := Tabs(indentLevel);
      assert indent + consensedLine == Converted(lines, i, teamUrl);
      out := out + [indent + consensedLine];
      prevLine := currentLine;
      i := i + 1;
    }
  }

  /** What `TrimLeft` returns starts with neither `-` nor a space, so trimming it again changes nothing. */
  lemma {:induction false} TrimLeftIdempotent(s: string)
    ensures TrimLeft(s) == s[LeadRun(s)..] && s[..LeadRun(s)] + TrimLeft(s) == s
    ensures LeadRun(TrimLeft(s)) == 0
    ensures TrimLeft(TrimLeft(s)) == TrimLeft(s)
  {
    var t := TrimLeft(s);
    assert |t| > 0 ==> t[0] == s[LeadRun(s)];
  }

  /** Putting `-` and space characters in front lengthens the run by that many and trims away. */
  lemma {:induction false} LeadRunAfter(p: string, s: string)
    requires forall k :: 0 <= k < |p| ==> IsDashOrSpace(p[k])
    ensures LeadRun(p + s) == |p| + LeadRun(s)
    ensures TrimLeft(p + s) == TrimLeft(s)
    decreases |p|
  {
    if |p| > 0 {
      assert (p + s)[1..] == p[1..] + s;
      LeadRunAfter(p[1..], s);
    }
    var n := LeadRun(s);
    assert (p + s)[|p| + n..] == s[n..] by {
      assert forall k :: 0 <= k < |s| - n ==> (p + s)[|p| + n..][k] == s[n..][k];
    }
  }

  /** The net number of steps up (run longer than the line before) less steps down over lines `[a, b)`. */
  function Drift(lines: seq<string>, a: nat, b: nat): int
    requires a <= b <= |lines|
    decreases b - a
  {
    if a == b then 0 else Sign(LeadRun(lines[a]) - PrevRun(lines, a)) + Drift(lines, a + 1, b)
  }

  lemma {:induction false} DriftSnoc(lines: seq<string>, a: nat, b: nat)
    requires a <= b < |lines|
    ensures Drift(lines, a, b + 1) == Drift(lines, a, b) + Sign(LeadRun(lines[b]) - PrevRun(lines, b))
    decreases b - a
  {
    if a < b {
      DriftSnoc(lines, a + 1, b);
    }
  }

  /**
   * The level of an indented line is 1 plus the drift since the last unindented line
   * (or since the start, where the previous line is "- TIL" at level 1).
   */
  lemma {:induction false} LevelDrift(lines: seq<string>, r: nat, i: nat)
    requires r <= i < |lines|
    requires r == 0 || LeadRun(lines[r - 1]) == 0
    requires forall j :: r <= j <= i ==> LeadRun(lines[j]) > 0
    ensures Level(lines, i) == 1 + Drift(lines, r, i + 1)
    decreases i
  {
    DriftSnoc(lines, r, i);
    if r < i {
      LevelDrift(lines, r, i - 1);
    } else if r > 0 {
      assert Level(lines, r - 1) == 1;
    }
  }

  /** A line's level depends only on the lines up to it: the converter streams. */
  lemma {:induction false} LevelPrefix(lines: seq<string>, n: nat, i: nat)
    requires i < n <= |lines|
    ensures Level(lines[..n], i) == Level(lines, i)
    decreases i
  {
    if i > 0 {
      LevelPrefix(lines, n, i - 1);
    }
    assert lines[..n][i] == lines[i];
    assert i > 0 ==> lines[..n][i - 1] == lines[i - 1];
  }

  /** Converting the first `n` lines gives the first `n` lines of the whole conversion. */
  lemma {:induction false} ConvertPrefix(lines: seq<string>, n: nat, teamUrl: string)
    requires n <= |lines| && NonNegativeLevels(lines)
    ensures NonNegativeLevels(lines[..n])
    ensures Convert(lines[..n], teamUrl) == Convert(lines, teamUrl)[..n]
  {
    forall i | 0 <= i < n
      ensures Level(lines[..n], i) == Level(lines, i)
    {
      LevelPrefix(lines, n, i);
    }
    var c := Convert(lines[..n], teamUrl);
    forall i | 0 <= i < n
      ensures c[i] == Convert(lines, teamUrl)[i]
    {
      assert lines[..n][i] == lines[i];
    }
  }

  /** When no indented line has a shorter run than the line before it, every level is at least 1. */
  lemma {:induction false} RisingRuns(lines: seq<string>)
    requires forall i :: 0 <= i < |lines| && LeadRun(lines[i]) > 0 ==> LeadRun(lines[i]) >= PrevRun(lines, i)
    ensures forall i :: 0 <= i < |lines| ==> Level(lines, i) >= 1
    ensures NonNegativeLevels(lines)
  {
    forall i | 0 <= i < |lines|
      ensures Level(lines, i) >= 1
    {
      RisingLevel(lines, i);
    }
  }

  lemma {:induction false} RisingLevel(lines: seq<string>, i: nat)
    requires i < |lines|
    requires forall j :: 0 <= j <= i && LeadRun(lines[j]) > 0 ==> LeadRun(lines[j]) >= PrevRun(lines, j)
    ensures Level(lines, i) >= 1
    decreases i
  {
    if i > 0 {
      RisingLevel(lines, i - 1);
    }
  }

  /** The run is `n` long when its first `n` characters are `-` or spaces and the next one is neither. */
  lemma {:induction false} RunIs(s: string, n: nat)
    requires n < |s| && !IsDashOrSpace(s[n])
    requires forall k :: 0 <= k < n ==> IsDashOrSpace(s[k])
    ensures LeadRun(s) == n
  {
  }

  /** The leading runs of the lines of `NegativeLevel`. */
  lemma {:induction false} ExampleRuns()
    ensures LeadRun(FirstPrev) == 2
    ensures LeadRun(" a") == 1 && LeadRun("   b") == 3 && LeadRun("  c") == 2 && LeadRun(" d") == 1
  {
    RunIs(FirstPrev, 2);
    RunIs(" a", 1);
    RunIs("   b", 3);
    RunIs("  c", 2);
    RunIs(" d", 1);
  }

  /** The level is not clamped: a run that rises and then falls twice takes the level below 0. */
  lemma {:induction false} NegativeLevel()
    ensures Level([" a", "   b", "  c", " d"], 3) == -1
    ensures !NonNegativeLevels([" a", "   b", "  c", " d"])
  {
    var lines := [" a", "   b", "  c", " d"];
    ExampleRuns();
    assert lines[0] == " a" && lines[1] == "   b" && lines[2] == "  c" && lines[3] == " d";
    assert Level(lines, 0) == 0;
    assert Level(lines, 1) == 1;
    assert Level(lines, 2) == 0;
  }

  // ---------------------------------------------------------------------------------------------
  // pipeline

  /** `pipeline`: the extractor's lines fed to the converter. */
  method Pipeline(lines: seq<string>, title: string, teamUrl: string) returns (out: seq<string>)
    requires NonNegativeLevels(Extract(lines, title))
    ensures out == Convert(Extract(lines, title), teamUrl)
  {
    var section := ExtractTILSection(lines, title);
    out := ConvertToConsenseFormat(section, teamUrl);
  }

  /**
   * The first line out of the pipeline is the title, trimmed of leading `-` and spaces and with
   * its links rewritten, one tab deep, or two when the title itself starts with `-` or a space.
   */
  lemma {:induction false} PipelineTitle(lines: seq<string>, title: string, teamUrl: string)
    requires NonNegativeLevels(Extract(lines, title))
    ensures Convert(Extract(lines, title), teamUrl)[0] ==
      Tabs(if LeadRun(title) > 0 then 2 else 1) + MdLinkToCosenseLink(TrimLeft(title), teamUrl)
  {
    var x := Extract(lines, title);
    LeadRunAfter("- ", title);
    LeadRunAfter("- ", "TIL");
    assert LeadRun("TIL") == 0;
    assert x[0] == "- " + title && "- " + title == "- " + title;
    assert FirstPrev == "- " + "TIL";
    assert Level(x, 0) == if LeadRun(title) > 0 then 2 else 1;
  }

  /** A line starts with `#` exactly when its first character is `#`. */
  lemma {:induction false} HashFirst(line: string)
    ensures HasPrefix(line, "#") <==> |line| > 0 && line[0] == '#'
  {
    if |line| > 0 {
      assert line[..1][0] == line[0];
    }
  }

  /** A TIL section whose bullets are indented less and less, and then a plain line. */
  const ExamplePost: seq<string> := [TilHeading, "    - a", "  - b", "- c", "x"]

  /** The extractor copies the four section lines of `ExamplePost`, each two spaces deeper. */
  lemma {:induction false} ExampleSection()
    ensures Extract(ExamplePost, "t") == ["- t", "      - a", "    - b", "  - c", "  x"]
  {
    ExampleBounds();
    ExampleKept();
    ExtractSection(ExamplePost, "t", 0, 5);
    assert "- " + "t" == "- t";
    var k := ["      - a", "    - b", "  - c", "  x"];
    assert ["- t"] + k == ["- t", "      - a", "    - b", "  - c", "  x"];
  }

  /** In `ExamplePost` the section runs from after line 0 to the end. */
  lemma {:induction false} ExampleBounds()
    ensures FindHeading(ExamplePost, 0) == Some(0) && SectionEnd(ExamplePost, 1) == 5
  {
    var lines := ExamplePost;
    HashFirst(lines[1]);
    HashFirst(lines[2]);
    HashFirst(lines[3]);
    HashFirst(lines[4]);
    assert SectionEnd(lines, 5) == 5;
    assert SectionEnd(lines, 4) == 5;
    assert SectionEnd(lines, 3) == 5;
    assert SectionEnd(lines, 2) == 5;
  }

  /** Every line after the heading of `ExamplePost` is kept. */
  lemma {:induction false} ExampleKept()
    ensures Kept(ExamplePost, 1, 5) == ["      - a", "    - b", "  - c", "  x"]
  {
    var lines := ExamplePost;
    assert Keep(lines[1]) && Keep(lines[2]) && Keep(lines[3]) && Keep(lines[4]) by {
      assert lines[1][4] == '-' && lines[2][2] == '-' && lines[3][0] == '-' && lines[4][0] == 'x';
    }
    assert "  " + lines[1] == "      - a" && "  " + lines[2] == "    - b";
    assert "  " + lines[3] == "  - c" && "  " + lines[4] == "  x";
    assert Kept(lines, 1, 1) == [];
    assert Kept(lines, 1, 2) == ["      - a"];
    assert Kept(lines, 1, 3) == ["      - a", "    - b"];
    assert Kept(lines, 1, 4) == ["      - a", "    - b", "  - c"];
  }

  /** The leading runs of the lines the extractor writes for `ExamplePost`. */
  lemma {:induction false} ExampleSectionRuns()
    ensures LeadRun("- t") == 2 && LeadRun("      - a") == 8 && LeadRun("    - b") == 6
    ensures LeadRun("  - c") == 4 && LeadRun("  x") == 2
  {
    RunIs("- t", 2);
    ExampleDeepRuns();
    RunIs("  - c", 4);
    RunIs("  x", 2);
  }

  lemma {:induction false} ExampleDeepRuns()
    ensures LeadRun("      - a") == 8 && LeadRun("    - b") == 6
  {
    RunIs("      - a", 8);
    RunIs("    - b", 6);
  }

  /**
   * Through the pipeline, too, a TIL section can drive the level below 0: the levels of the
   * lines written for `ExamplePost` are 1, 2, 1, 0 and -1, where `strings.Repeat` would panic.
   */
  lemma {:induction false} PipelineNegative()
    ensures |Extract(ExamplePost, "t")| == 5 && Level(Extract(ExamplePost, "t"), 4) == -1
    ensures !NonNegativeLevels(Extract(ExamplePost, "t"))
  {
    var x := Extract(ExamplePost, "t");
    ExampleSection();
    ExampleSectionRuns();
    ExampleRuns();
    assert x[0] == "- t" && x[1] == "      - a" && x[2] == "    - b" && x[3] == "  - c" && x[4] == "  x";
    assert Level(x, 0) == 1;
    assert Level(x, 1) == 2;
    assert Level(x, 2) == 1;
    assert Level(x, 3) == 0;
  }
}
