/** How the chat interface cuts a message into narrative text and fenced code
    before displaying it (streamlit_app.py, lines 19-33 and again 56-70). */
module CodeBlocks {
  import opened Wrappers
  import opened PyText

  /** The code-fence delimiter: three backticks. */
  const Fence: string := "```"

  /** One displayed piece of a message: narrative text shown as written, or a
      code block with the language tag given to the highlighter (None when
      the block had no first line to take one from). */
  datatype Segment = Text(text: string) | Code(language: Option<string>, code: string)

  /** An odd-index part: the first line, stripped, is the language tag and the
      rest is the code; a part without a newline is all code. */
  function CodeSegment(part: string): (seg: Segment)
    ensures seg.Code?
    ensures seg.language.None? <==> '\n' !in part
    ensures seg.language.None? ==> seg.code == part
    ensures seg.language.Some? ==>
      exists k :: 0 <= k < |part| && part[k] == '\n' && '\n' !in part[..k]
        && seg.language.value == Strip(part[..k]) && seg.code == part[k + 1..]
  {
    match SplitFirst(part, '\n')
    case None => Code(None, part)
    case Some((tag, code)) =>
      var k := |tag|;
      assert part[..k] == tag && part[k] == '\n' && part[k + 1..] == code;
      Code(Some(Strip(tag)), code)
  }

  /** Whether the part at position `index` of the split is displayed: every
      code part is, a text part only when it is not whitespace only. */
  predicate Kept(part: string, index: nat) {
    index % 2 == 1 || Strip(part) != ""
  }

  /** How the part at position `index` is displayed: even positions as text,
      odd positions as code. */
  function Shown(part: string, index: nat): Segment {
    if index % 2 == 0 then Text(part) else CodeSegment(part)
  }

  /** The segment, if any, produced by the part at position `index` of the split. */
  function PartSegments(part: string, index: nat): seq<Segment> {
    if index % 2 == 0 then
      if Strip(part) != "" then [Text(part)] else []
    else [CodeSegment(part)]
  }

  lemma PartSegmentsShown(part: string, index: nat)
    ensures PartSegments(part, index) == if Kept(part, index) then [Shown(part, index)] else []
  {
  }

  /** The segments of `parts`, the first of which sits at position `index`. */
  function Render(parts: seq<string>, index: nat): seq<Segment>
    decreases |parts|
  {
    if |parts| == 0 then []
    else PartSegments(parts[0], index) + Render(parts[1..], index + 1)
  }

  /** The segments displayed for one chat message. Without a fence the whole
      message is written as one text, even when it is blank. */
  function Segments(content: string): (segs: seq<Segment>)
    ensures !Contains(content, Fence) ==> segs == [Text(content)]
    ensures Contains(content, Fence) ==> forall i :: 0 <= i < |segs| && segs[i].Text? ==> !AllSpace(segs[i].text)
  {
    if Contains(content, Fence) then
      var parts := Split(content, Fence);
      RenderTextsNotBlank(parts, 0);
      Render(parts, 0)
    else [Text(content)]
  }

  lemma {:induction false} RenderTextsNotBlank(parts: seq<string>, index: nat)
    ensures forall i :: 0 <= i < |Render(parts, index)| && Render(parts, index)[i].Text? ==> !AllSpace(Render(parts, index)[i].text)
    decreases |parts|
  {
    if |parts| > 0 {
      RenderTextsNotBlank(parts[1..], index + 1);
      StripEmptyIffBlank(parts[0]);
    }
  }

  /** The parts at odd positions: the ones between an opening and a closing fence. */
  function OddParts(parts: seq<string>): seq<string>
    decreases |parts|
  {
    if |parts| < 2 then [] else [parts[1]] + OddParts(parts[2..])
  }

  /** The parts at even positions: the ones outside every fence pair. */
  function EvenParts(parts: seq<string>): seq<string>
    decreases |parts|
  {
    if |parts| == 0 then [] else [parts[0]] + OddParts(parts[1..])
  }

  /** The code segments, in order. */
  function Codes(segs: seq<Segment>): seq<Segment>
    decreases |segs|
  {
    if |segs| == 0 then []
    else (if segs[0].Code? then [segs[0]] else []) + Codes(segs[1..])
  }

  /** The text segments, in order. */
  function Texts(segs: seq<Segment>): seq<Segment>
    decreases |segs|
  {
    if |segs| == 0 then []
    else (if segs[0].Text? then [segs[0]] else []) + Texts(segs[1..])
  }

  /** Each part becomes a code block, in order. */
  function CodeBlocksOf(parts: seq<string>): seq<Segment>
    decreases |parts|
  {
    if |parts| == 0 then [] else [CodeSegment(parts[0])] + CodeBlocksOf(parts[1..])
  }

  /** Each part that is not blank becomes a text segment, in order. */
  function NonBlankTexts(parts: seq<string>): seq<Segment>
    decreases |parts|
  {
    if |parts| == 0 then []
    else (if Strip(parts[0]) != "" then [Text(parts[0])] else []) + NonBlankTexts(parts[1..])
  }

  lemma {:induction false} CodesAppend(a: seq<Segment>, b: seq<Segment>)
    ensures Codes(a + b) == Codes(a) + Codes(b)
    decreases |a|
  {
    if |a| > 0 {
      assert (a + b)[0] == a[0];
      assert (a + b)[1..] == a[1..] + b;
      CodesAppend(a[1..], b);
    } else {
      assert a + b == b;
    }
  }

  lemma {:induction false} TextsAppend(a: seq<Segment>, b: seq<Segment>)
    ensures Texts(a + b) == Texts(a) + Texts(b)
    decreases |a|
  {
    if |a| > 0 {
      assert (a + b)[0] == a[0];
      assert (a + b)[1..] == a[1..] + b;
      TextsAppend(a[1..], b);
    } else {
      assert a + b == b;
    }
  }

  lemma RenderCons(parts: seq<string>, index: nat)
    requires |parts| > 0
    ensures Render(parts, index) == PartSegments(parts[0], index) + Render(parts[1..], index + 1)
  {
  }

  /** Dropping the first part swaps odd and even positions. */
  lemma OddPartsOfTail(parts: seq<string>)
    requires |parts| > 0
    ensures OddParts(parts) == EvenParts(parts[1..])
    ensures EvenParts(parts) == [parts[0]] + OddParts(parts[1..])
  {
    if |parts| >= 2 {
      assert parts[1..][1..] == parts[2..];
    }
  }

  lemma CodeBlocksOfCons(part: string, parts: seq<string>)
    ensures CodeBlocksOf([part] + parts) == [CodeSegment(part)] + CodeBlocksOf(parts)
  {
    assert ([part] + parts)[1..] == parts;
  }

  lemma NonBlankTextsCons(part: string, parts: seq<string>)
    ensures NonBlankTexts([part] + parts) == NonBlankTexts([part]) + NonBlankTexts(parts)
  {
    assert ([part] + parts)[1..] == parts;
    assert [part][1..] == [];
  }

  /** What one part contributes to each projection. */
  lemma PartProjections(part: string, index: nat)
    ensures Codes(PartSegments(part, index)) == if index % 2 == 0 then [] else [CodeSegment(part)]
    ensures Texts(PartSegments(part, index)) == if index % 2 == 0 then NonBlankTexts([part]) else []
  {
    assert [part][1..] == [];
  }

  /** Code segments come from exactly the parts at odd positions, in part
      order. Stated for a run of parts starting at any position. */
  lemma RenderCodes(parts: seq<string>, index: nat)
    ensures Codes(Render(parts, index)) == CodeBlocksOf(if index % 2 == 0 then OddParts(parts) else EvenParts(parts))
  {
    if index % 2 == 0 {
      RenderCodesEven(parts, index);
    } else {
      RenderCodesOdd(parts, index);
    }
  }

  lemma {:induction false} RenderCodesEven(parts: seq<string>, index: nat)
    requires index % 2 == 0
    ensures Codes(Render(parts, index)) == CodeBlocksOf(OddParts(parts))
    decreases |parts|
  {
    if |parts| > 0 {
      var head := PartSegments(parts[0], index);
      var tail := Render(parts[1..], index + 1);
      RenderCons(parts, index);
      RenderCodesOdd(parts[1..], index + 1);
      OddPartsOfTail(parts);
      PartProjections(parts[0], index);
      CodesAppend(head, tail);
      assert Codes(head) == [];
    }
  }

  lemma {:induction false} RenderCodesOdd(parts: seq<string>, index: nat)
    requires index % 2 == 1
    ensures Codes(Render(parts, index)) == CodeBlocksOf(EvenParts(parts))
    decreases |parts|
  {
    if |parts| > 0 {
      var head := PartSegments(parts[0], index);
      var tail := Render(parts[1..], index + 1);
      RenderCons(parts, index);
      RenderCodesEven(parts[1..], index + 1);
      OddPartsOfTail(parts);
      PartProjections(parts[0], index);
      CodesAppend(head, tail);
      CodeBlocksOfCons(parts[0], OddParts(parts[1..]));
      assert Codes(head) == [CodeSegment(parts[0])];
    }
  }

  /** Text segments come from exactly the non-blank parts at even positions, in
      part order. Stated for a run of parts starting at any position. */
  lemma RenderTexts(parts: seq<string>, index: nat)
    ensures Texts(Render(parts, index)) == NonBlankTexts(if index % 2 == 0 then EvenParts(parts) else OddParts(parts))
  {
    if index % 2 == 0 {
      RenderTextsEven(parts, index);
    } else {
      RenderTextsOdd(parts, index);
    }
  }

  lemma {:induction false} RenderTextsEven(parts: seq<string>, index: nat)
    requires index % 2 == 0
    ensures Texts(Render(parts, index)) == NonBlankTexts(EvenParts(parts))
    decreases |parts|
  {
    if |parts| > 0 {
      var head := PartSegments(parts[0], index);
      var tail := Render(parts[1..], index + 1);
      RenderCons(parts, index);
      RenderTextsOdd(parts[1..], index + 1);
      OddPartsOfTail(parts);
      PartProjections(parts[0], index);
      TextsAppend(head, tail);
      NonBlankTextsCons(parts[0], OddParts(parts[1..]));
      assert Texts(head) == NonBlankTexts([parts[0]]);
    }
  }

  lemma {:induction false} RenderTextsOdd(parts: seq<string>, index: nat)
    requires index % 2 == 1
    ensures Texts(Render(parts, index)) == NonBlankTexts(OddParts(parts))
    decreases |parts|
  {
    if |parts| > 0 {
      var head := PartSegments(parts[0], index);
      var tail := Render(parts[1..], index + 1);
      RenderCons(parts, index);
      RenderTextsEven(parts[1..], index + 1);
      OddPartsOfTail(parts);
      PartProjections(parts[0], index);
      TextsAppend(head, tail);
      assert Texts(head) == [];
    }
  }

  lemma {:induction false} OddPartsLength(parts: seq<string>)
    ensures |OddParts(parts)| == |parts| / 2
    decreases |parts|
  {
    if |parts| >= 2 {
      OddPartsLength(parts[2..]);
    }
  }

  lemma {:induction false} CodeBlocksOfLength(parts: seq<string>)
    ensures |CodeBlocksOf(parts)| == |parts|
    decreases |parts|
  {
    if |parts| > 0 {
      CodeBlocksOfLength(parts[1..]);
    }
  }

  /** The code blocks of a message are the odd-position parts of its split on
      the fence, in order; a message without a fence has none. */
  lemma SegmentsCodes(content: string)
    ensures Codes(Segments(content)) == CodeBlocksOf(OddParts(Split(content, Fence)))
  {
    SplitIsTrivialIffAbsent(content, Fence);
    if Contains(content, Fence) {
      RenderCodes(Split(content, Fence), 0);
    } else {
      assert Codes([Text(content)]) == [];
    }
  }

  /** A message shows one code block per odd index among its
      `count("```") + 1` parts. */
  lemma CodeBlockCount(content: string)
    ensures |Codes(Segments(content))| == (Count(content, Fence) + 1) / 2
  {
    var parts := Split(content, Fence);
    SegmentsCodes(content);
    SplitCount(content, Fence);
    OddPartsLength(parts);
    CodeBlocksOfLength(OddParts(parts));
  }

  /** The text segments of a fenced message are its non-blank even-position
      parts, unchanged and in order. */
  lemma SegmentsTexts(content: string)
    requires Contains(content, Fence)
    ensures Texts(Segments(content)) == NonBlankTexts(EvenParts(Split(content, Fence)))
  {
    RenderTexts(Split(content, Fence), 0);
  }

  /** The characters a segment puts on screen besides its language tag. */
  function Body(seg: Segment): string {
    match seg
    case Text(text) => text
    case Code(_, code) => code
  }

  predicate FenceFree(segs: seq<Segment>) {
    forall i :: 0 <= i < |segs| ==> !Contains(Body(segs[i]), Fence)
  }

  lemma CodeSegmentFenceFree(part: string)
    requires !Contains(part, Fence)
    ensures !Contains(CodeSegment(part).code, Fence)
  {
    var seg := CodeSegment(part);
    if seg.language.Some? {
      var k :| 0 <= k < |part| && part[k] == '\n' && seg.code == part[k + 1..];
      ContainsSuffix(part, k + 1, Fence);
    }
  }

  lemma PartFenceFree(part: string, index: nat)
    requires !Contains(part, Fence)
    ensures FenceFree(PartSegments(part, index))
  {
    var segs := PartSegments(part, index);
    if index % 2 == 0 {
      assert forall i :: 0 <= i < |segs| ==> Body(segs[i]) == part;
    } else {
      CodeSegmentFenceFree(part);
      assert segs == [CodeSegment(part)];
    }
  }

  lemma FenceFreeAppend(a: seq<Segment>, b: seq<Segment>)
    requires FenceFree(a) && FenceFree(b)
    ensures FenceFree(a + b)
  {
    forall i | 0 <= i < |a + b|
      ensures !Contains(Body((a + b)[i]), Fence)
    {
      if i < |a| {
        assert (a + b)[i] == a[i];
      } else {
        assert (a + b)[i] == b[i - |a|];
      }
    }
  }

  lemma {:induction false} RenderFenceFree(parts: seq<string>, index: nat)
    requires forall i :: 0 <= i < |parts| ==> !Contains(parts[i], Fence)
    ensures FenceFree(Render(parts, index))
    decreases |parts|
  {
    if |parts| > 0 {
      RenderCons(parts, index);
      RenderFenceFree(parts[1..], index + 1);
      PartFenceFree(parts[0], index);
      FenceFreeAppend(PartSegments(parts[0], index), Render(parts[1..], index + 1));
    }
  }

  /** No displayed text and no displayed code contains the fence itself. */
  lemma SegmentsFenceFree(content: string)
    ensures FenceFree(Segments(content))
  {
    if Contains(content, Fence) {
      RenderFenceFree(Split(content, Fence), 0);
    }
  }

  /** The parts that `keep` selects, each displayed by `show`, in part order;
      the first part sits at position `index`. `Render` is this selection with
      `Kept` and `Shown` (RenderIsPick). */
  function Pick(parts: seq<string>, index: nat, keep: (string, nat) -> bool, show: (string, nat) -> Segment): seq<Segment>
    decreases |parts|
  {
    if |parts| == 0 then []
    else (if keep(parts[0], index) then [show(parts[0], index)] else []) + Pick(parts[1..], index + 1, keep, show)
  }

  /** The positions, counted from `index`, of the parts that `keep` selects. */
  function Positions(parts: seq<string>, index: nat, keep: (string, nat) -> bool): seq<nat>
    decreases |parts|
  {
    if |parts| == 0 then []
    else (if keep(parts[0], index) then [index] else []) + Positions(parts[1..], index + 1, keep)
  }

  lemma {:induction false} RenderIsPick(parts: seq<string>, index: nat)
    ensures Render(parts, index) == Pick(parts, index, Kept, Shown)
    decreases |parts|
  {
    if |parts| > 0 {
      RenderCons(parts, index);
      PartSegmentsShown(parts[0], index);
      RenderIsPick(parts[1..], index + 1);
    }
  }

  lemma {:induction false} PositionsIncrease(parts: seq<string>, index: nat, keep: (string, nat) -> bool)
    ensures forall j :: 0 <= j < |Positions(parts, index, keep)| ==>
      index <= Positions(parts, index, keep)[j] < index + |parts|
    ensures forall j, k :: 0 <= j < k < |Positions(parts, index, keep)| ==>
      Positions(parts, index, keep)[j] < Positions(parts, index, keep)[k]
    decreases |parts|
  {
    if |parts| > 0 {
      var head: seq<nat> := if keep(parts[0], index) then [index] else [];
      var tail := Positions(parts[1..], index + 1, keep);
      PositionsIncrease(parts[1..], index + 1, keep);
      assert Positions(parts, index, keep) == head + tail;
    }
  }

  lemma {:induction false} PositionsComplete(parts: seq<string>, index: nat, keep: (string, nat) -> bool)
    ensures forall i :: 0 <= i < |parts| ==> (index + i in Positions(parts, index, keep) <==> keep(parts[i], index + i))
    decreases |parts|
  {
    if |parts| > 0 {
      var head: seq<nat> := if keep(parts[0], index) then [index] else [];
      var tail := Positions(parts[1..], index + 1, keep);
      PositionsComplete(parts[1..], index + 1, keep);
      PositionsIncrease(parts[1..], index + 1, keep);
      assert Positions(parts, index, keep) == head + tail;
      forall i | 0 <= i < |parts|
        ensures index + i in head + tail <==> keep(parts[i], index + i)
      {
        if i == 0 {
          assert index !in tail;
        } else {
          assert parts[1..][i - 1] == parts[i];
          assert index + i !in head;
        }
      }
    }
  }

  /** Past the first part, the `j`-th pick and position are those of the rest
      of the parts, one earlier when the first part is selected. */
  lemma PickStep(parts: seq<string>, index: nat, keep: (string, nat) -> bool, show: (string, nat) -> Segment, j: nat)
    requires j < |Positions(parts, index, keep)| && j < |Pick(parts, index, keep, show)|
    requires !keep(parts[0], index) || j > 0
    ensures var k := if keep(parts[0], index) then j - 1 else j;
      && k < |Positions(parts[1..], index + 1, keep)| && k < |Pick(parts[1..], index + 1, keep, show)|
      && Positions(parts, index, keep)[j] == Positions(parts[1..], index + 1, keep)[k]
      && Pick(parts, index, keep, show)[j] == Pick(parts[1..], index + 1, keep, show)[k]
  {
    var head: seq<nat> := if keep(parts[0], index) then [index] else [];
    var shown := if keep(parts[0], index) then [show(parts[0], index)] else [];
    assert Positions(parts, index, keep) == head + Positions(parts[1..], index + 1, keep);
    assert Pick(parts, index, keep, show) == shown + Pick(parts[1..], index + 1, keep, show);
  }

  /** The `j`-th picked segment shows the part at the `j`-th selected position. */
  lemma {:induction false} PickAt(parts: seq<string>, index: nat, keep: (string, nat) -> bool, show: (string, nat) -> Segment, j: nat)
    requires j < |Positions(parts, index, keep)| && j < |Pick(parts, index, keep, show)|
    requires index <= Positions(parts, index, keep)[j] < index + |parts|
    ensures Pick(parts, index, keep, show)[j]
      == show(parts[Positions(parts, index, keep)[j] - index], Positions(parts, index, keep)[j])
    decreases |parts|
  {
    if !keep(parts[0], index) || j > 0 {
      var rest := parts[1..];
      var k := if keep(parts[0], index) then j - 1 else j;
      PickStep(parts, index, keep, show, j);
      var p := Positions(rest, index + 1, keep)[k];
      PositionsIncrease(rest, index + 1, keep);
      PickAt(rest, index + 1, keep, show, k);
      assert rest[p - (index + 1)] == parts[p - index];
    }
  }

  lemma {:induction false} PickLength(parts: seq<string>, index: nat, keep: (string, nat) -> bool, show: (string, nat) -> Segment)
    ensures |Pick(parts, index, keep, show)| == |Positions(parts, index, keep)|
    decreases |parts|
  {
    if |parts| > 0 {
      PickLength(parts[1..], index + 1, keep, show);
    }
  }

  /** `segs` lists the parts of `parts` that `keep` selects, each displayed by
      `show`, in order: `pos` holds, in increasing order, the position of the
      part behind each segment, and it holds exactly the selected positions. */
  predicate Interleaving(segs: seq<Segment>, parts: seq<string>, pos: seq<nat>, keep: (string, nat) -> bool, show: (string, nat) -> Segment) {
    && |pos| == |segs|
    && (forall j :: 0 <= j < |pos| ==> pos[j] < |parts| && segs[j] == show(parts[pos[j]], pos[j]))
    && (forall j, k :: 0 <= j < k < |pos| ==> pos[j] < pos[k])
    && (forall i :: 0 <= i < |parts| ==> (i in pos <==> keep(parts[i], i)))
  }

  lemma PickInterleaving(parts: seq<string>, keep: (string, nat) -> bool, show: (string, nat) -> Segment)
    ensures Interleaving(Pick(parts, 0, keep, show), parts, Positions(parts, 0, keep), keep, show)
  {
    var pos := Positions(parts, 0, keep);
    var segs := Pick(parts, 0, keep, show);
    PositionsIncrease(parts, 0, keep);
    PositionsComplete(parts, 0, keep);
    PickLength(parts, 0, keep, show);
    forall j | 0 <= j < |pos|
      ensures pos[j] < |parts| && segs[j] == show(parts[pos[j]], pos[j])
    {
      PickAt(parts, 0, keep, show, j);
    }
    forall i | 0 <= i < |parts|
      ensures i in pos <==> keep(parts[i], i)
    {
      assert 0 + i == i;
    }
  }

  /** Text and code segments of a fenced message appear in the order of the
      parts they come from: every code part and every non-blank text part, in
      part order, text for even positions and code for odd ones. */
  lemma SegmentsInterleave(content: string)
    requires Contains(content, Fence)
    ensures exists pos :: Interleaving(Segments(content), Split(content, Fence), pos, Kept, Shown)
  {
    var parts := Split(content, Fence);
    RenderIsPick(parts, 0);
    PickInterleaving(parts, Kept, Shown);
    assert Interleaving(Segments(content), parts, Positions(parts, 0, Kept), Kept, Shown);
  }
}
