/**
 * The timeline of three New Year blessings: the event records, the icon chosen for each
 * medium, the highlighting of the current year and the links to the full PDFs. The
 * paragraphs of the timeline go through the same `parseBold` as the memories; its copy in
 * this component is the same algorithm character for character, so it is modelled once, by
 * BoldMarkup.ParseBold, and the authored paragraphs below are checked against it.
 */
module Timeline {
  import opened Wrappers
  import opened BoldMarkup

  /** The lucide icons `getIcon` can return. */
  datatype Icon = FileText | Presentation | Terminal

  /** A timeline event without its rendered description: the fields the logic looks at. */
  datatype TimelineEvent = TimelineEvent(
    id: string,
    year: string,
    date: string,
    iconType: string,
    hasDetails: bool,
    pdfLink: Option<string>)

  /** The icon for a medium: Word text, slides, code; anything else falls back to FileText. */
  function GetIcon(iconType: string): (icon: Icon)
    ensures icon == Presentation <==> iconType == "ppt"
    ensures icon == Terminal <==> iconType == "code"
    ensures icon == FileText <==> iconType != "ppt" && iconType != "code"
  {
    match iconType
    case "text" => FileText
    case "ppt" => Presentation
    case "code" => Terminal
    case _ => FileText
  }

  /** The event drawn with the pulsing dot and the "deploying" badge. */
  predicate IsCurrentYear(e: TimelineEvent): (current: bool)
    ensures current ==> !ShowsPdfButton(e)
  {
    e.year == "2026"
  }

  /** The `href` of a PDF button, `pdfLink || '#'`. */
  function PdfHref(pdfLink: Option<string>): (href: string)
    ensures href != []
    ensures Truthy(pdfLink) ==> href == pdfLink.value
    ensures !Truthy(pdfLink) ==> href == "#"
  {
    if Truthy(pdfLink) then pdfLink.value else "#"
  }

  /** Only the 2024 and the 2025 events render a "Review Full PDF" button; the two blocks test
   *  different years, so exactly one of them renders for such an event and none for others. */
  predicate ShowsPdfButton(e: TimelineEvent): (shows: bool)
    ensures shows <==> (e.year == "2024") != (e.year == "2025")
  {
    e.year == "2024" || e.year == "2025"
  }

  /** The three events, in the order they are drawn. */
  const Events: seq<TimelineEvent> := [
    TimelineEvent("2024", "2024", "2024.1.1", "text", true, Some("/2024blessing.pdf")),
    TimelineEvent("2025", "2025", "2025.1.6", "ppt", true, Some("/2025blessing.pdf")),
    TimelineEvent("2026", "2026", "2026.1.4", "code", false, None)
  ]

  /** Exactly the last event is the current year, and every event has its own icon. */
  lemma CurrentYearIsLast()
    ensures forall i :: 0 <= i < |Events| ==> (IsCurrentYear(Events[i]) <==> i == |Events| - 1)
    ensures [GetIcon(Events[0].iconType), GetIcon(Events[1].iconType), GetIcon(Events[2].iconType)]
      == [FileText, Presentation, Terminal]
  {
  }

  /** Every PDF button that is drawn points at that year's PDF, never at the '#' fallback. */
  lemma PdfButtonsLinkThePdfs()
    ensures forall i :: 0 <= i < |Events| && ShowsPdfButton(Events[i]) ==>
      Truthy(Events[i].pdfLink) && PdfHref(Events[i].pdfLink) == "/" + Events[i].year + "blessing.pdf"
    ensures forall i :: 0 <= i < |Events| && !ShowsPdfButton(Events[i]) ==> IsCurrentYear(Events[i])
  {
    assert "/" + Events[0].year + "blessing.pdf" == "/2024blessing.pdf";
    assert "/" + Events[1].year + "blessing.pdf" == "/2025blessing.pdf";
  }

  /** The close of the intro's paragraph on the changing relationship: a bold quotation
   *  with a space on each side inside the delimiters. */
  const RelationshipClose: string := "到** “你今年不给我写新年小作文了” **。"

  /** Spaces inside a bold run are kept verbatim in the bold text. */
  lemma RelationshipCloseVector()
    ensures ParseBold(RelationshipClose) ==
      Some([Plain("到"), Bold(" “你今年不给我写新年小作文了” "), Plain("。")])
  {
    var x := " “你今年不给我写新年小作文了” ";
    RelationshipCloseCompose();
    RelationshipCloseWellFormed();
    ParseBoldRuns([("到", x)], "。");
    assert Expected([("到", x)], "。") == [Plain("到"), Bold(x), Plain("。")];
  }

  lemma RelationshipCloseCompose()
    ensures Compose([("到", " “你今年不给我写新年小作文了” ")], "。") == RelationshipClose
  {
    ComposeCons("到", " “你今年不给我写新年小作文了” ", [], "。");
    assert [("到", " “你今年不给我写新年小作文了” ")] + [] == [("到", " “你今年不给我写新年小作文了” ")];
    assert Compose([], "。") == "。";
  }

  lemma RelationshipCloseWellFormed()
    ensures WellFormedRuns([("到", " “你今年不给我写新年小作文了” ")], "。")
  {
    var x := " “你今年不给我写新年小作文了” ";
    assert '*' !in x;
    assert forall j :: 0 <= j < |x| ==> !IsLineTerminator(x[j]);
    assert WellFormedRuns([], "。");
    WellFormedCons("到", x, [], "。");
    assert [("到", x)] + [] == [("到", x)];
  }

  /** The three signposts of the intro's paragraph on AI; the text before `：`, the prose between them and the two later bold runs are elided. */
  const SignpostsAbridged: string := "：**首先**，……**其次**，……**最后**，……"

  /** The plain text before each signpost, and the signpost. */
  const SignpostRuns: seq<(string, string)> := [("：", "首先"), ("，……", "其次"), ("，……", "最后")]

  lemma SignpostsCompose()
    ensures Compose(SignpostRuns, "，……") == SignpostsAbridged
  {
    var gap := "，……";
    assert Compose([], gap) == gap;
    ComposeCons(gap, "最后", [], gap);
    ComposeCons(gap, "其次", [(gap, "最后")], gap);
    ComposeCons("：", "首先", [(gap, "其次"), (gap, "最后")], gap);
    SignpostsLiteral();
    assert SignpostRuns == [("：", "首先")] + ([(gap, "其次")] + ([(gap, "最后")] + []));
  }

  lemma SignpostsLiteral()
    ensures "：" + "**" + "首先" + "**" + ("，……" + "**" + "其次" + "**" + ("，……" + "**" + "最后" + "**" + "，……"))
      == SignpostsAbridged
  {
  }

  lemma SignpostsWellFormed()
    ensures WellFormedRuns(SignpostRuns, "，……")
  {
    var gap, runs := "，……", SignpostRuns;
    assert '*' !in gap;
    assert WellFormedRuns([], gap);
    WellFormedCons(gap, "最后", [], gap);
    assert [runs[2]] == [(gap, "最后")] + [];
    WellFormedCons(gap, "其次", [runs[2]], gap);
    assert runs[1..] == [(gap, "其次")] + [runs[2]];
    WellFormedCons("：", "首先", runs[1..], gap);
    assert runs == [runs[0]] + runs[1..];
  }

  lemma SignpostsExpected()
    ensures Expected(SignpostRuns, "，……") ==
      [Plain("："), Bold("首先"), Plain("，……"), Bold("其次"), Plain("，……"), Bold("最后"), Plain("，……")]
  {
    var gap := "，……";
    ExpectedCons(gap, "最后", [], gap);
    ExpectedCons(gap, "其次", [(gap, "最后")], gap);
    ExpectedCons("：", "首先", [(gap, "其次"), (gap, "最后")], gap);
    assert SignpostRuns == [("：", "首先")] + ([(gap, "其次")] + ([(gap, "最后")] + []));
  }

  /** Several bold runs in one text are split out independently, left to right. */
  lemma SignpostsVector()
    ensures ParseBold(SignpostsAbridged) == Some([
      Plain("："), Bold("首先"), Plain("，……"), Bold("其次"), Plain("，……"), Bold("最后"), Plain("，……")])
  {
    SignpostsCompose();
    SignpostsWellFormed();
    ParseBoldRuns(SignpostRuns, "，……");
    SignpostsExpected();
  }
}
