/** `bind_books`: group once, then run the four stages in order. */
module Pipeline {
  import opened Books
  import Grouping
  import opened Layout
  import TextExport
  import HtmlExport
  import Epubs
  import Mobis

  /** Everything `bind_books` does, for the grouped dict `data`: the text
      export, the web export, one e-book per non-empty group, then the
      conversion of those e-books. */
  function BindEffects(data: seq<Group>, out: string, strip: string -> string, render: HtmlExport.Renderer,
                       build: Epubs.Builder, first: Option<string>, fetch: bool, second: Option<string>): seq<Effect>
  {
    var bound := Epubs.NonEmptyGroups(data);
    ExportEffects(out, data, TextExport.TextFile(strip))
      + ExportEffects(out, data, HtmlExport.HtmlFile(render))
      + Epubs.EpubCalls(bound)
      + Mobis.MobiEffects(Epubs.EpubPaths(build, bound), first, fetch, second)
  }

  /** `bind_books(app)`: the chapters, volumes and packing flag come from
      `app`, the collaborators and the kindlegen answers are parameters. */
  method BindBooks(chapters: seq<Chapter>, volumes: seq<Volume>, packByVolume: bool, out: string,
                   strip: string -> string, render: HtmlExport.Renderer, build: Epubs.Builder,
                   first: Option<string>, fetch: bool, second: Option<string>, convert: Mobis.Converter)
    returns (effects: seq<Effect>)
    ensures effects == BindEffects(Grouping.Grouped(chapters, volumes, packByVolume), out, strip, render, build, first, fetch, second)
  {
    var data := Grouping.MakeData(chapters, volumes, packByVolume);
    var textFiles, textEffects := TextExport.MakeTexts(data, out, strip);
    var webFiles, webEffects := HtmlExport.MakeHtmls(data, out, render);
    var epubs, epubEffects := Epubs.MakeEpubs(data, build);
    var mobis, mobiEffects := Mobis.MakeMobis(epubs, first, fetch, second, convert);
    effects := textEffects + webEffects + epubEffects + mobiEffects;
  }

  /** The stage an effect belongs to: the exports, the e-books, the
      conversion. */
  function Stage(e: Effect): nat
  {
    match e
    case MakeDirs(_) => 0
    case WriteFile(_, _) => 0
    case BindEpub(_, _) => 1
    case _ => 2
  }

  lemma {:induction false} ExportStage(out: string, data: seq<Group>, file: Slot -> (string, string))
    ensures forall k :: 0 <= k < |ExportEffects(out, data, file)| ==> Stage(ExportEffects(out, data, file)[k]) == 0
    decreases |data|
  {
    if data != [] {
      ExportStage(out, data[..|data| - 1], file);
    }
  }

  /** The stages run strictly in order: no export after an e-book was
      bound and no e-book bound after kindlegen was looked for. */
  lemma StagesInOrder(data: seq<Group>, out: string, strip: string -> string, render: HtmlExport.Renderer,
                      build: Epubs.Builder, first: Option<string>, fetch: bool, second: Option<string>)
    ensures var e := BindEffects(data, out, strip, render, build, first, fetch, second);
      forall i, j :: 0 <= i < j < |e| ==> Stage(e[i]) <= Stage(e[j])
  {
    var bound := Epubs.NonEmptyGroups(data);
    var texts := ExportEffects(out, data, TextExport.TextFile(strip));
    var webs := ExportEffects(out, data, HtmlExport.HtmlFile(render));
    var calls := Epubs.EpubCalls(bound);
    var conv := Mobis.MobiEffects(Epubs.EpubPaths(build, bound), first, fetch, second);
    ExportStage(out, data, TextExport.TextFile(strip));
    ExportStage(out, data, HtmlExport.HtmlFile(render));
    var exports := texts + webs;
    assert forall k :: 0 <= k < |exports| ==> Stage(exports[k]) == 0;
    assert forall k :: 0 <= k < |calls| ==> Stage(calls[k]) == 1;
    assert forall k :: 0 <= k < |conv| ==> Stage(conv[k]) == 2;
    SegmentsInOrder(exports, calls, conv);
  }

  lemma SegmentsInOrder(a: seq<Effect>, b: seq<Effect>, c: seq<Effect>)
    requires forall k :: 0 <= k < |a| ==> Stage(a[k]) == 0
    requires forall k :: 0 <= k < |b| ==> Stage(b[k]) == 1
    requires forall k :: 0 <= k < |c| ==> Stage(c[k]) == 2
    ensures forall i, j :: 0 <= i < j < |a + b + c| ==> Stage((a + b + c)[i]) <= Stage((a + b + c)[j])
  {
    var e := a + b + c;
    forall i, j | 0 <= i < j < |e|
      ensures Stage(e[i]) <= Stage(e[j])
    {
      if j < |a| {
        assert e[i] == a[i] && e[j] == a[j];
      } else if j < |a| + |b| {
        assert e[j] == b[j - |a|];
        if i >= |a| {
          assert e[i] == b[i - |a|];
        } else {
          assert e[i] == a[i];
        }
      } else {
        assert e[j] == c[j - |a| - |b|];
        if i < |a| {
          assert e[i] == a[i];
        } else if i < |a| + |b| {
          assert e[i] == b[i - |a|];
        } else {
          assert e[i] == c[i - |a| - |b|];
        }
      }
    }
  }

  /** The e-book stage binds what the grouping produced and the conversion
      stage converts exactly the e-books the builder answered: the stages
      pass their results along and nothing else. */
  lemma StagesShareData(chapters: seq<Chapter>, volumes: seq<Volume>, packByVolume: bool, out: string,
                        strip: string -> string, render: HtmlExport.Renderer, build: Epubs.Builder,
                        first: Option<string>, fetch: bool, second: Option<string>)
    ensures var data := Grouping.Grouped(chapters, volumes, packByVolume);
      var e := BindEffects(data, out, strip, render, build, first, fetch, second);
      var n := 2 * (|data| + TotalChapters(data));
      var bound := Epubs.NonEmptyGroups(data);
      && |e| >= n + |bound|
      && e[n..n + |bound|] == Epubs.EpubCalls(bound)
      && e[n + |bound|..] == Mobis.MobiEffects(Epubs.EpubPaths(build, bound), first, fetch, second)
  {
    var data := Grouping.Grouped(chapters, volumes, packByVolume);
    ExportLength(out, data, TextExport.TextFile(strip));
    ExportLength(out, data, HtmlExport.HtmlFile(render));
  }

  /** An export has one directory per group plus one write per chapter. */
  lemma {:induction false} ExportLength(out: string, data: seq<Group>, file: Slot -> (string, string))
    ensures |ExportEffects(out, data, file)| == |data| + TotalChapters(data)
    decreases |data|
  {
    if data != [] {
      ExportLength(out, data[..|data| - 1], file);
    }
  }
}
