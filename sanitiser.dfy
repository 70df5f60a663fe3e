/** `clean_code_response`: the text rewrite applied to every code reply before
    it is written to disk and run. It removes markdown code-fence markers,
    strips surrounding whitespace, and puts a "save the figure" line in front of
    each display call of the plotting library the code uses. */
module Sanitiser {
  import opened PyStr

  const PltShow: string := "plt.show()"
  const FigShow: string := "fig.show()"

  const PltSaveHead: string := "plt.savefig(\"generated_images/design_"
  const PltSaveTail: string := ".png\", dpi=300, bbox_inches=\"tight\")"

  /** The matplotlib save call placed before every `plt.show()`. */
  function PltSave(imgName: string): (r: string)
    ensures |r| == |imgName| + 73
    ensures r[..37] == "plt.savefig(\"generated_images/design_"
    ensures r[37..37 + |imgName|] == imgName
    ensures r[37 + |imgName|..] == ".png\", dpi=300, bbox_inches=\"tight\")"
  {
    PltSaveHead + imgName + PltSaveTail
  }

  const FigSaveHead: string := "fig.write_image(\"generated_images/design_"
  const FigSaveTail: string := ".png\")"

  /** The plotly save call placed before every `fig.show()`. */
  function FigSave(imgName: string): (r: string)
    ensures |r| == |imgName| + 47
    ensures r[..41] == "fig.write_image(\"generated_images/design_"
    ensures r[41..41 + |imgName|] == imgName
    ensures r[41 + |imgName|..] == ".png\")"
  {
    FigSaveHead + imgName + FigSaveTail
  }

  // ------------------------------------------------------------ fence markers

  /** Length of the match of the pattern ^```(?:python)?\n|```$ (multi-line
      mode) at the start of `s`, or 0 when it does not match there; `bol` says
      whether this position is the start of a line of the original text. The
      first alternative is tried first, and inside it the optional `python`. */
  function FenceMatch(s: string, bol: bool): (m: nat)
    ensures m == 0 || m == 3 || m == 4 || m == 10
    ensures m <= |s|
    ensures m > 0 ==> s[0] == '`'
    ensures forall j :: 0 <= j < m ==> IsFenceChar(s[j])
    ensures m > 4 ==> bol
    ensures m == 3 ==> |s| == 3 || s[3] == '\n'
    ensures m == 4 ==> bol && s[3] == '\n'
    ensures m == 10 ==> bol && s[3..10] == "python\n"
    ensures bol && |s| >= 10 && s[..10] == "```python\n" ==> m == 10
    ensures bol && |s| >= 4 && s[..4] == "```\n" ==> m == 4
  {
    assert |s| >= 4 ==> s[..4][3] == s[3] && s[..4][..3] == s[..3];
    assert |s| >= 10 ==> s[..10][3..] == s[3..10] && s[..10][..3] == s[..3];
    if |s| >= 3 && s[..3] == "```" then
      if bol && |s| >= 10 && s[3..10] == "python\n" then 10
      else if bol && |s| >= 4 && s[3] == '\n' then 4
      else if |s| == 3 || s[3] == '\n' then 3
      else 0
    else 0
  }

  /** Whether index `i` of `s` starts a line, given that index 0 does exactly
      when `bol` holds. */
  function BolAt(s: string, bol: bool, i: nat): bool
    requires i <= |s|
  {
    if i == 0 then bol else s[i - 1] == '\n'
  }

  /** Length of the fence match that the scan would find at index `i`. */
  function MatchLen(s: string, bol: bool, i: nat): nat
    requires i <= |s|
  {
    FenceMatch(s[i..], BolAt(s, bol, i))
  }

  /** Both anchors of the pattern: three backticks match exactly when they
      end the text or a line, or when they open a line and are followed by
      `python` and a newline. Backticks anywhere else are not a marker. */
  lemma FenceMatchAnchors(s: string, bol: bool)
    ensures FenceMatch(s, bol) > 0 <==>
      MatchAt(s, "```", 0) && (|s| == 3 || s[3] == '\n' || (bol && MatchAt(s, "python\n", 3)))
  {
    if |s| >= 3 {
      assert s[0..3] == s[..3];
    }
    if |s| >= 10 {
      assert s[3..3 + |"python\n"|] == s[3..10];
    }
  }

  /** The anchors at index `i` of the text. */
  lemma MatchLenAnchors(s: string, bol: bool, i: nat)
    requires i <= |s|
    ensures MatchLen(s, bol, i) > 0 <==>
      MatchAt(s, "```", i)
      && (i + 3 == |s| || s[i + 3] == '\n' || (BolAt(s, bol, i) && MatchAt(s, "python\n", i + 3)))
  {
    var t := s[i..];
    FenceMatchAnchors(t, BolAt(s, bol, i));
    MatchAtShift(s, "```", i, 0);
    MatchAtShift(s, "python\n", i, 3);
    if |t| > 3 {
      assert t[3] == s[i + 3];
    }
  }

  /** No fence marker starts before index `k`. */
  predicate NoFenceBefore(s: string, bol: bool, k: nat)
    requires k <= |s|
  {
    forall i: nat :: i < k ==> MatchLen(s, bol, i) == 0
  }

  /** `re.sub` of the fence pattern by "": a left-to-right scan that deletes
      each match and continues after it; `^` is judged against the original
      text, so `bol` is computed from the character before the current index. */
  function Fences(s: string, bol: bool): (r: string)
    ensures |r| <= |s|
    decreases |s|
  {
    if |s| == 0 then ""
    else
      var m := FenceMatch(s, bol);
      if m > 0 then Fences(s[m..], s[m - 1] == '\n')
      else [s[0]] + Fences(s[1..], s[0] == '\n')
  }

  /** The fence-removal step on a whole reply. */
  function RemoveFences(s: string): (r: string)
    ensures |r| <= |s|
  {
    Fences(s, true)
  }

  /** Indices of `s[1..]` see the same fence matches as the next index of `s`. */
  lemma MatchLenTail(s: string, bol: bool, i: nat)
    requires |s| > 0 && i < |s|
    ensures MatchLen(s[1..], s[0] == '\n', i) == MatchLen(s, bol, i + 1)
  {
    assert s[1..][i..] == s[i + 1..];
  }

  /** Where no marker starts, the scan copies one character and moves on. */
  lemma FencesCopyStep(s: string, bol: bool)
    requires |s| > 0 && FenceMatch(s, bol) == 0
    ensures Fences(s, bol) == [s[0]] + Fences(s[1..], s[0] == '\n')
  {
  }

  /** Where a marker starts, the scan drops it and moves on. */
  lemma FencesDropStep(s: string, bol: bool)
    requires |s| > 0 && FenceMatch(s, bol) > 0
    ensures var m := FenceMatch(s, bol); Fences(s, bol) == Fences(s[m..], s[m - 1] == '\n')
  {
  }

  /** The counterpart of `FencesKeepPrefix`: the first marker is deleted and
      the scan resumes after it, judging the next line start on the original
      text. */
  lemma FencesDropMarker(s: string, bol: bool, i: nat)
    requires i < |s| && NoFenceBefore(s, bol, i) && MatchLen(s, bol, i) > 0
    ensures var m := MatchLen(s, bol, i);
      i + m <= |s| && Fences(s, bol) == s[..i] + Fences(s[i + m..], BolAt(s, bol, i + m))
  {
    var t := s[i..];
    var m := MatchLen(s, bol, i);
    FencesKeepPrefix(s, bol, i);
    FencesDropStep(t, BolAt(s, bol, i));
    assert t[m..] == s[i + m..];
    assert t[m - 1] == s[i + m - 1];
  }

  lemma NoFenceBeforeTail(s: string, bol: bool, k: nat)
    requires 0 < k <= |s| && NoFenceBefore(s, bol, k)
    ensures FenceMatch(s, bol) == 0
    ensures NoFenceBefore(s[1..], s[0] == '\n', k - 1)
  {
    assert MatchLen(s, bol, 0) == 0;
    assert s[0..] == s;
    var t, b := s[1..], s[0] == '\n';
    forall i: nat | i < k - 1 ensures MatchLen(t, b, i) == 0 {
      MatchLenTail(s, bol, i);
    }
  }

  /** Two ways of writing the text copied so far are the same. */
  lemma CopiedPrefix(s: string, k: nat, rest: string)
    requires 0 < k <= |s|
    ensures [s[0]] + (s[1..][..k - 1] + rest) == s[..k] + rest
  {
    assert s[..k] == [s[0]] + s[1..][..k - 1];
  }

  /** Text before the first fence marker is kept verbatim, backticks included. */
  lemma {:induction false} FencesKeepPrefix(s: string, bol: bool, k: nat)
    requires k <= |s| && NoFenceBefore(s, bol, k)
    ensures Fences(s, bol) == s[..k] + Fences(s[k..], BolAt(s, bol, k))
    decreases k
  {
    if k > 0 {
      NoFenceBeforeTail(s, bol, k);
      FencesCopyStep(s, bol);
      FencesKeepPrefix(s[1..], s[0] == '\n', k - 1);
      assert s[1..][k - 1..] == s[k..];
      CopiedPrefix(s, k, Fences(s[k..], BolAt(s, bol, k)));
    } else {
      assert s[..0] == "" && s[0..] == s;
    }
  }

  /** Any fence marker makes the text strictly shorter. */
  lemma {:induction false} FencesShrinkOnMatch(s: string, bol: bool, i: nat)
    requires i < |s| && MatchLen(s, bol, i) > 0
    ensures |Fences(s, bol)| < |s|
    decreases i
  {
    if FenceMatch(s, bol) == 0 {
      assert s[0..] == s;
      assert i > 0;
      MatchLenTail(s, bol, i - 1);
      FencesShrinkOnMatch(s[1..], s[0] == '\n', i - 1);
    }
  }

  /** Fence removal leaves the text unchanged exactly when no fence marker
      occurs in it. */
  lemma FencesNoOpIff(s: string, bol: bool)
    ensures Fences(s, bol) == s <==> NoFenceBefore(s, bol, |s|)
  {
    if NoFenceBefore(s, bol, |s|) {
      FencesKeepPrefix(s, bol, |s|);
      assert s[..|s|] == s;
    } else {
      var i: nat :| i < |s| && MatchLen(s, bol, i) > 0;
      FencesShrinkOnMatch(s, bol, i);
    }
  }

  /** The characters a fence marker is made of. */
  predicate IsFenceChar(c: char) {
    c == '`' || c == '\n' || c in "python"
  }

  lemma MarkerHoldsNo(marker: string, c: char)
    requires forall j :: 0 <= j < |marker| ==> IsFenceChar(marker[j])
    requires !IsFenceChar(c)
    ensures multiset(marker)[c] == 0
  {
    assert c !in marker;
  }

  /** Fence removal deletes nothing but fence-marker characters: every other
      character keeps its number of occurrences. */
  lemma {:induction false} FencesKeepOtherChars(s: string, bol: bool, c: char)
    requires !IsFenceChar(c)
    ensures multiset(Fences(s, bol))[c] == multiset(s)[c]
    decreases |s|
  {
    if |s| > 0 {
      var m := FenceMatch(s, bol);
      if m > 0 {
        FencesKeepOtherChars(s[m..], s[m - 1] == '\n', c);
        DropKeepsCount(s, bol, c);
      } else {
        FencesKeepOtherChars(s[1..], s[0] == '\n', c);
        CopyKeepsCount(s, bol, c);
      }
    }
  }

  /** Dropping a marker keeps the count of a non-marker character. */
  lemma DropKeepsCount(s: string, bol: bool, c: char)
    requires |s| > 0 && !IsFenceChar(c)
    requires var m := FenceMatch(s, bol);
      m > 0 && multiset(Fences(s[m..], s[m - 1] == '\n'))[c] == multiset(s[m..])[c]
    ensures multiset(Fences(s, bol))[c] == multiset(s)[c]
  {
    var m := FenceMatch(s, bol);
    FencesDropStep(s, bol);
    MarkerHoldsNo(s[..m], c);
    CountSplit(s, m, c);
  }

  /** Copying one character keeps the count of every character. */
  lemma CopyKeepsCount(s: string, bol: bool, c: char)
    requires |s| > 0 && FenceMatch(s, bol) == 0
    requires multiset(Fences(s[1..], s[0] == '\n'))[c] == multiset(s[1..])[c]
    ensures multiset(Fences(s, bol))[c] == multiset(s)[c]
  {
    FencesCopyStep(s, bol);
    CountSplit(s, 1, c);
    CountCons(s[0], Fences(s[1..], s[0] == '\n'), c);
  }

  lemma CountSplit(s: string, m: nat, c: char)
    requires m <= |s|
    ensures multiset(s)[c] == multiset(s[..m])[c] + multiset(s[m..])[c]
  {
    assert s == s[..m] + s[m..];
  }

  lemma CountCons(x: char, t: string, c: char)
    ensures multiset([x] + t)[c] == multiset([x])[c] + multiset(t)[c]
  {
  }

  // ------------------------------------------------------------- the rewrite

  /** The reply after fence removal and `strip()`. */
  function FenceStripped(code: string): (r: string)
    ensures Trimmed(r) && |r| <= |code|
  {
    Strip(RemoveFences(code))
  }

  /** Both inserted texts start with a letter and end with `)`. */
  lemma SaveLinesTrimmed(imgName: string)
    ensures Trimmed(PltSave(imgName) + "\n" + PltShow)
    ensures Trimmed(FigSave(imgName) + "\n" + FigShow)
  {
    assert PltSave(imgName)[0] == 'p';
    assert FigSave(imgName)[0] == 'f';
  }

  /** `clean_code_response(code_response, img_name)`. The result never starts
      or ends with whitespace. */
  function CleanCodeResponse(code: string, imgName: string): (r: string)
    ensures Trimmed(r)
  {
    var t := FenceStripped(code);
    if Contains(t, PltShow) then
      SaveLinesTrimmed(imgName);
      ReplaceKeepsTrimmed(t, PltShow, PltSave(imgName) + "\n" + PltShow);
      Replace(t, PltShow, PltSave(imgName) + "\n" + PltShow)
    else if Contains(t, FigShow) then
      SaveLinesTrimmed(imgName);
      ReplaceKeepsTrimmed(t, FigShow, FigSave(imgName) + "\n" + FigShow);
      Replace(t, FigShow, FigSave(imgName) + "\n" + FigShow)
    else t
  }

  /** The reply is returned as fence-stripped text, unchanged, exactly when it
      contains neither display idiom. */
  lemma CleanNoIdiom(code: string, imgName: string)
    ensures var t := FenceStripped(code);
      CleanCodeResponse(code, imgName) == t <==> !Contains(t, PltShow) && !Contains(t, FigShow)
  {
    var t := FenceStripped(code);
    if Contains(t, PltShow) {
      InsertionLengthens(t, PltShow, PltSave(imgName) + "\n");
    } else if Contains(t, FigShow) {
      InsertionLengthens(t, FigShow, FigSave(imgName) + "\n");
    }
  }

  /** Inserting a non-empty line before every occurrence of a pattern that
      does occur makes the text longer. */
  lemma InsertionLengthens(t: string, p: string, line: string)
    requires |p| > 0 && |line| > 0 && Contains(t, p)
    ensures |Replace(t, p, line + p)| > |t|
  {
    ReplaceLength(t, p, line + p);
    CountPositiveIffContains(t, p);
    assert |line + p| - |p| == |line|;
    GrowsBy(|t|, Count(t, p), |line|, |Replace(t, p, line + p)|);
  }

  /** The arithmetic of a positive number of insertions. */
  lemma GrowsBy(lt: int, c: int, d: int, r: int)
    requires c >= 1 && d >= 1 && r == lt + c * d
    ensures r > lt
  {
    assert c * d == (c - 1) * d + d;
  }

  /** What an insertion of `line` before each occurrence of `p` does to `t`:
      `t` is cut at its occurrences of `p` into `p`-free pieces, one more than
      there are occurrences; joining them back with `p` gives `t`, and the
      result joins them with `line + p` instead, so it is exactly `line`
      longer per occurrence. */
  predicate InsertedBefore(r: string, t: string, p: string, line: string)
    requires |p| > 0
  {
    var pieces := Split(t, p);
    && |pieces| == Count(t, p) + 1
    && (forall k :: 0 <= k < |pieces| ==> !Contains(pieces[k], p))
    && Join(pieces, p) == t
    && r == Join(pieces, line + p)
    && |r| == |t| + Count(t, p) * |line|
  }

  lemma InsertionShape(t: string, p: string, line: string)
    requires |p| > 0
    ensures InsertedBefore(Replace(t, p, line + p), t, p, line)
  {
    SplitCount(t, p);
    SplitPiecesAvoid(t, p);
    SplitJoinRoundTrip(t, p);
    ReplaceIsJoinOfSplit(t, p, line + p);
    ReplaceLength(t, p, line + p);
  }

  /** The matplotlib case: when the fence-stripped text contains `plt.show()`,
      the save line is inserted before every one of its occurrences (at least
      one) and nothing else changes; `fig.show()` calls are then left alone
      even when present. */
  lemma CleanMatplotlib(code: string, imgName: string)
    requires Contains(FenceStripped(code), PltShow)
    ensures var t := FenceStripped(code);
      && InsertedBefore(CleanCodeResponse(code, imgName), t, PltShow, PltSave(imgName) + "\n")
      && Count(t, PltShow) >= 1
  {
    var t := FenceStripped(code);
    InsertionShape(t, PltShow, PltSave(imgName) + "\n");
    CountPositiveIffContains(t, PltShow);
  }

  /** The plotly case: only when `plt.show()` is absent and `fig.show()` is
      present, the `write_image` line is inserted before every `fig.show()`. */
  lemma CleanPlotly(code: string, imgName: string)
    requires !Contains(FenceStripped(code), PltShow) && Contains(FenceStripped(code), FigShow)
    ensures var t := FenceStripped(code);
      && InsertedBefore(CleanCodeResponse(code, imgName), t, FigShow, FigSave(imgName) + "\n")
      && Count(t, FigShow) >= 1
  {
    var t := FenceStripped(code);
    InsertionShape(t, FigShow, FigSave(imgName) + "\n");
    CountPositiveIffContains(t, FigShow);
  }

  /** The usual shape of a reply, one fenced python block: the opening
      marker goes with its newline, the closing marker goes, and the newline
      before it is stripped, so what is left is the body itself. */
  lemma FencedBlockBody(body: string)
    requires |body| > 0 && Trimmed(body)
    requires NoFenceBefore(body + "\n```", true, |body| + 1)
    ensures FenceStripped("```python\n" + body + "\n```") == body
  {
    OpeningFenceDropped(body + "\n```");
    assert "```python\n" + body + "\n```" == "```python\n" + (body + "\n```");
    ClosingFenceDropped(body);
    StripNewline(body);
  }

  lemma OpeningFenceDropped(rest: string)
    ensures RemoveFences("```python\n" + rest) == Fences(rest, true)
  {
    var reply := "```python\n" + rest;
    assert reply[..3] == "```" && reply[3..10] == "python\n";
    assert FenceMatch(reply, true) == 10;
    FencesDropStep(reply, true);
    assert reply[10..] == rest;
  }

  lemma ClosingFenceDropped(body: string)
    requires NoFenceBefore(body + "\n```", true, |body| + 1)
    ensures Fences(body + "\n```", true) == body + "\n"
  {
    FencesKeepPrefix(body + "\n```", true, |body| + 1);
    ClosingParts(body);
    ClosingMarkerAlone(true);
  }

  /** The reply split just after the newline that ends the body. */
  lemma ClosingParts(body: string)
    ensures var inner := body + "\n```"; var k := |body| + 1;
      inner[..k] == body + "\n" && inner[k..] == "```" && BolAt(inner, true, k)
  {
    var inner := body + "\n```";
    var k := |body| + 1;
    assert inner[..k] == body + "\n";
    assert inner[k..] == "```";
  }

  lemma ClosingMarkerAlone(bol: bool)
    ensures Fences("```", bol) == ""
  {
    var m := "```";
    assert FenceMatch(m, bol) == 3;
    FencesDropStep(m, bol);
    assert m[3..] == "";
  }

  lemma StripNewline(body: string)
    requires |body| > 0 && Trimmed(body)
    ensures Strip(body + "\n") == body
  {
    var t := body + "\n";
    LStripKeeps(t);
    RStripDrops(t);
    assert t[..|t| - 1] == body;
    RStripKeeps(body);
  }

  lemma LStripKeeps(s: string)
    requires |s| > 0 && !IsSpace(s[0])
    ensures LStrip(s) == s
  {
  }

  lemma RStripKeeps(s: string)
    requires |s| > 0 && !IsSpace(s[|s| - 1])
    ensures RStrip(s) == s
  {
  }

  lemma RStripDrops(s: string)
    requires |s| > 0 && IsSpace(s[|s| - 1])
    ensures RStrip(s) == RStrip(s[..|s| - 1])
  {
  }

  /** Text without backticks has no fence marker. */
  lemma NoBacktickNoFence(s: string, bol: bool)
    requires '`' !in s
    ensures Fences(s, bol) == s
  {
    forall i: nat | i < |s| ensures MatchLen(s, bol, i) == 0 {
      assert s[i..][0] == s[i] != '`';
    }
    FencesNoOpIff(s, bol);
  }

  /** Text without backticks that is already trimmed comes out of the first
      two steps unchanged. */
  lemma FenceStrippedPlain(s: string)
    requires '`' !in s && Trimmed(s)
    ensures FenceStripped(s) == s
  {
    NoBacktickNoFence(s, true);
    StripTrimmed(s);
  }

  /** The save line in front of `plt.show()`, with its newline. */
  function PltLine(imgName: string): string {
    PltSave(imgName) + "\n"
  }

  lemma CleanBarePltShow(imgName: string)
    ensures CleanCodeResponse(PltShow, imgName) == PltLine(imgName) + PltShow
  {
    PltShowPlain();
    FenceStrippedPlain(PltShow);
    ReplaceWholePltShow(PltSave(imgName) + "\n" + PltShow);
    assert PltLine(imgName) + PltShow == PltSave(imgName) + "\n" + PltShow;
  }

  lemma PltShowPlain()
    ensures '`' !in PltShow && Trimmed(PltShow) && Contains(PltShow, PltShow)
  {
    assert MatchAt(PltShow, PltShow, 0);
  }

  lemma ReplaceWholePltShow(n: string)
    ensures Replace(PltShow, PltShow, n) == n
  {
    assert PltShow[..|PltShow|] == PltShow;
    assert PltShow[|PltShow|..] == "";
  }

  /** A first `plt.show()` that follows plain text gets the save line put
      between the two. */
  lemma CleanAfterPlainText(line: string, imgName: string)
    requires '`' !in line && 'w' !in line && |line| > 0 && !IsSpace(line[0])
    ensures CleanCodeResponse(line + PltShow, imgName) == line + (PltLine(imgName) + PltShow)
  {
    var text := line + PltShow;
    assert text[|text| - 1] == ')';
    assert text[0] == line[0];
    FenceStrippedPlain(text);
    assert MatchAt(text, PltShow, |line|) by {
      assert text[|line|..|line| + |PltShow|] == PltShow;
    }
    assert PltShow[7] == 'w';
    MarkerRulesOutEarlyMatch(line, PltShow, 7);
    ReplaceSkipsPrefix(line, PltShow, PltShow, PltLine(imgName) + PltShow);
    assert Replace(PltShow, PltShow, PltLine(imgName) + PltShow) == PltLine(imgName) + PltShow by {
      assert PltShow[|PltShow|..] == "";
    }
  }

  lemma SaveHeadPlain()
    ensures '`' !in PltSaveHead && 'w' !in PltSaveHead
  {
  }

  lemma SaveTailPlain()
    ensures '`' !in PltSaveTail && 'w' !in PltSaveTail
  {
  }

  lemma SaveLineIsPlain(imgName: string)
    requires '`' !in imgName && 'w' !in imgName
    ensures '`' !in PltLine(imgName) && 'w' !in PltLine(imgName)
    ensures |PltLine(imgName)| > 0 && PltLine(imgName)[0] == 'p'
  {
    SaveHeadPlain();
    SaveTailPlain();
    assert PltLine(imgName) == PltSaveHead + imgName + PltSaveTail + "\n";
  }

  /** Cleaning the output of one pass over a bare `plt.show()` inserts a
      second save line. */
  lemma CleanSecondPass(imgName: string)
    requires '`' !in imgName && 'w' !in imgName
    ensures CleanCodeResponse(PltLine(imgName) + PltShow, imgName)
      == PltLine(imgName) + PltLine(imgName) + PltShow
  {
    var line := PltLine(imgName);
    SaveLineIsPlain(imgName);
    CleanAfterPlainText(line, imgName);
    assert line + (line + PltShow) == line + line + PltShow;
  }

  /** The save line has no backticks when the image name has none. */
  lemma PltLineNoBacktick(imgName: string)
    requires '`' !in imgName
    ensures '`' !in PltLine(imgName)
  {
    SaveHeadPlain();
    SaveTailPlain();
    assert PltLine(imgName) == PltSaveHead + imgName + PltSaveTail + "\n";
  }

  /** The output for a bare `plt.show()` has no backticks and still holds
      `plt.show()`. */
  lemma PltOutputPlain(imgName: string)
    requires '`' !in imgName
    ensures '`' !in PltLine(imgName) + PltShow
    ensures Contains(PltLine(imgName) + PltShow, PltShow)
  {
    var line := PltLine(imgName);
    var once := line + PltShow;
    PltLineNoBacktick(imgName);
    forall k | 0 <= k < |once| ensures once[k] != '`' {
      if k < |line| {
        assert once[k] == line[k];
      } else {
        assert once[k] == PltShow[k - |line|];
      }
    }
    assert once[|line|..|line| + |PltShow|] == PltShow;
    assert MatchAt(once, PltShow, |line|);
  }

  /** Plain trimmed text holding `plt.show()` is never a fixed point. */
  lemma CleanMovesPlainPlt(t: string, imgName: string)
    requires '`' !in t && Trimmed(t) && Contains(t, PltShow)
    ensures CleanCodeResponse(t, imgName) != t
  {
    FenceStrippedPlain(t);
    CleanNoIdiom(t, imgName);
  }

  /** For every image name without backticks, sanitising the output for a
      bare `plt.show()` changes it again: that output is no fixed point. */
  lemma CleanOutputNotFixed(imgName: string)
    requires '`' !in imgName
    ensures var once := CleanCodeResponse(PltShow, imgName);
      CleanCodeResponse(once, imgName) != once
  {
    CleanBarePltShow(imgName);
    PltOutputPlain(imgName);
    CleanMovesPlainPlt(PltLine(imgName) + PltShow, imgName);
  }

  /** The sanitiser is not idempotent: a second pass over its own output puts
      a second save line in front of `plt.show()`. */
  lemma CleanNotIdempotent(imgName: string)
    requires '`' !in imgName && 'w' !in imgName
    ensures var once := CleanCodeResponse(PltShow, imgName);
      && once == PltLine(imgName) + PltShow
      && CleanCodeResponse(once, imgName) == PltLine(imgName) + PltLine(imgName) + PltShow
      && CleanCodeResponse(once, imgName) != once
  {
    CleanBarePltShow(imgName);
    CleanSecondPass(imgName);
    var line := PltLine(imgName);
    assert |line + line + PltShow| > |line + PltShow|;
  }
}
