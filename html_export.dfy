/** `make_htmls`: one web page per chapter, linked to its neighbours. */
module HtmlExport {
  import opened Books
  import opened PyStr
  import opened Layout

  /** The chapter before this one in its group, if it is not the first. */
  function Prev(s: Slot): Option<Chapter>
  {
    if 0 < s.index <= |s.chapters| then Some(s.chapters[s.index - 1]) else None
  }

  /** The chapter after this one in its group, if it is not the last. */
  function Next(s: Slot): Option<Chapter>
  {
    if s.index + 1 < |s.chapters| then Some(s.chapters[s.index + 1]) else None
  }

  /** The page renderer `bind_html_chapter(chapter, prev, next)`, which
      answers the markup and a file name. */
  type Renderer = (Chapter, Option<Chapter>, Option<Chapter>) -> (string, string)

  /** The file a chapter gets in the web export: the renderer's file name
      and its markup, written verbatim. */
  function HtmlFile(render: Renderer): Slot -> (string, string)
  {
    (s: Slot) => var page := render(s.chapter, Prev(s), Next(s)); (page.1, page.0)
  }

  /** `make_htmls(app, data)`, with `app.output_path` as `out`. */
  method MakeHtmls(data: seq<Group>, out: string, render: Renderer)
    returns (webFiles: seq<string>, effects: seq<Effect>)
    ensures effects == ExportEffects(out, data, HtmlFile(render))
    ensures webFiles == WrittenPaths(effects)
    ensures |webFiles| == TotalChapters(data)
    ensures forall k :: 0 <= k < |webFiles| ==>
      webFiles[k] == PathJoin(GroupDir(out, Slots(data)[k].name), HtmlFile(render)(Slots(data)[k]).0)
  {
    webFiles, effects := [], [];
    for g := 0 to |data|
      invariant effects == ExportEffects(out, data[..g], HtmlFile(render))
      invariant webFiles == WrittenPaths(effects)
    {
      var vol := data[g];
      var dirName := GroupDir(out, vol.name);
      ghost var done := effects;
      MakeDirsRecordsNoPath(effects, dirName);
      effects := effects + [MakeDirs(dirName)];
      for i := 0 to |vol.chapters|
        invariant effects == done + [MakeDirs(dirName)] + SlotWrites(out, HtmlFile(render), GroupSlots(g, vol)[..i])
        invariant webFiles == WrittenPaths(effects)
      {
        var chapter := vol.chapters[i];
        var prevChapter := if i > 0 then Some(vol.chapters[i - 1]) else None;
        var nextChapter := if i + 1 < |vol.chapters| then Some(vol.chapters[i + 1]) else None;
        var page := render(chapter, prevChapter, nextChapter);
        var html, fileName := page.0, page.1;
        HtmlFileAt(render, g, vol, i);
        GroupWriteStep(out, HtmlFile(render), done, g, vol, i, effects, webFiles, fileName, html);
        fileName := PathJoin(dirName, fileName);
        effects := effects + [WriteFile(fileName, html)];
        webFiles := webFiles + [fileName];
      }
      ExportGroupDone(out, data, HtmlFile(render), g, effects);
    }
    assert data[..|data|] == data;
    HtmlExportPaths(out, data, render);
  }

  /** The neighbours `make_htmls` computes from the index are those of the
      chapter's slot. */
  lemma HtmlFileAt(render: Renderer, g: nat, grp: Group, i: nat)
    requires i < |grp.chapters|
    ensures var prev := if i > 0 then Some(grp.chapters[i - 1]) else None;
      var next := if i + 1 < |grp.chapters| then Some(grp.chapters[i + 1]) else None;
      var page := render(grp.chapters[i], prev, next);
      HtmlFile(render)(Slot(g, grp.name, grp.chapters, i, grp.chapters[i])) == (page.1, page.0)
  {
    var slot := Slot(g, grp.name, grp.chapters, i, grp.chapters[i]);
    assert Prev(slot) == if i > 0 then Some(grp.chapters[i - 1]) else None;
    assert Next(slot) == if i + 1 < |grp.chapters| then Some(grp.chapters[i + 1]) else None;
  }

  /** The web export records one path per chapter, in slot order: the
      renderer's file name joined to the group directory. */
  lemma HtmlExportPaths(out: string, data: seq<Group>, render: Renderer)
    ensures var paths := WrittenPaths(ExportEffects(out, data, HtmlFile(render)));
      && |paths| == TotalChapters(data)
      && forall k :: 0 <= k < |paths| ==>
        paths[k] == PathJoin(GroupDir(out, Slots(data)[k].name), HtmlFile(render)(Slots(data)[k]).0)
  {
    ExportPaths(out, data, HtmlFile(render));
  }

  /** The previous chapter handed to the renderer is exactly the preceding
      slot when that slot is in the same group: the first chapter of a group
      gets none, even when an earlier group precedes it. */
  lemma PrevWithinGroup(data: seq<Group>, k: nat)
    requires k < TotalChapters(data)
    ensures var ss := Slots(data); var s := ss[k];
      && (Prev(s).Some? <==> s.index > 0)
      && (s.index > 0 ==> k > 0 && ss[k - 1].group == s.group && Prev(s) == Some(ss[k - 1].chapter))
      && (s.index == 0 && k > 0 ==> ss[k - 1].group < s.group)
  {
    var s := Slots(data)[k];
    SlotAt(data, k);
    if s.index > 0 {
      SlotBefore(data, k);
    } else if k > 0 {
      FirstOfGroupAfterEarlierGroup(data, k);
    }
  }

  /** A slot that is not the first of its group follows the chapter before
      it in the same group. */
  lemma SlotBefore(data: seq<Group>, k: nat)
    requires k < TotalChapters(data) && Slots(data)[k].index > 0
    ensures var s := Slots(data)[k];
      && k > 0 && s.index <= |s.chapters|
      && Slots(data)[k - 1] == Slot(s.group, s.name, s.chapters, s.index - 1, s.chapters[s.index - 1])
  {
    var s := Slots(data)[k];
    assert s.group < |data| && s.chapters == data[s.group].chapters && s.name == data[s.group].name
      && s.index < |s.chapters| && k == Offset(data, s.group) + s.index by { SlotAt(data, k); }
    assert Slots(data)[Offset(data, s.group) + (s.index - 1)]
      == Slot(s.group, s.name, s.chapters, s.index - 1, s.chapters[s.index - 1]) by {
      SlotAtOffset(data, s.group, s.index - 1);
    }
  }

  /** The slot before the first chapter of a group is in an earlier group. */
  lemma FirstOfGroupAfterEarlierGroup(data: seq<Group>, k: nat)
    requires 0 < k < TotalChapters(data)
    requires Slots(data)[k].index == 0
    ensures Slots(data)[k - 1].group < Slots(data)[k].group
  {
    var s, p := Slots(data)[k], Slots(data)[k - 1];
    assert s.group < |data| && k == Offset(data, s.group) by { SlotAt(data, k); }
    assert p.group < |data| && k - 1 >= Offset(data, p.group) by { SlotAt(data, k - 1); }
    OffsetMonotone(data, s.group, p.group);
  }

  /** The next chapter handed to the renderer is exactly the following slot
      when that slot is in the same group: the last chapter of a group gets
      none, even when a later group follows. */
  lemma NextWithinGroup(data: seq<Group>, k: nat)
    requires k < TotalChapters(data)
    ensures var ss := Slots(data); var s := ss[k];
      && (Next(s).Some? <==> s.index + 1 < |s.chapters|)
      && (Next(s).Some? ==> k + 1 < |ss| && ss[k + 1].group == s.group && Next(s) == Some(ss[k + 1].chapter))
      && (Next(s).None? && k + 1 < |ss| ==> ss[k + 1].group > s.group)
  {
    var s := Slots(data)[k];
    SlotAt(data, k);
    if Next(s).Some? {
      SlotAfter(data, k);
    } else if k + 1 < TotalChapters(data) {
      LastOfGroupThenLaterGroup(data, k);
    }
  }

  /** A slot that is not the last of its group is followed by the chapter
      after it in the same group. */
  lemma SlotAfter(data: seq<Group>, k: nat)
    requires k < TotalChapters(data) && Slots(data)[k].index + 1 < |Slots(data)[k].chapters|
    ensures var s := Slots(data)[k];
      && k + 1 < TotalChapters(data)
      && Slots(data)[k + 1] == Slot(s.group, s.name, s.chapters, s.index + 1, s.chapters[s.index + 1])
  {
    var s := Slots(data)[k];
    SlotAt(data, k);
    SlotAtOffset(data, s.group, s.index + 1);
  }

  /** The slot after the last chapter of a group is in a later group. */
  lemma LastOfGroupThenLaterGroup(data: seq<Group>, k: nat)
    requires k + 1 < TotalChapters(data)
    requires Slots(data)[k].index + 1 >= |Slots(data)[k].chapters|
    ensures Slots(data)[k + 1].group > Slots(data)[k].group
  {
    var s, q := Slots(data)[k], Slots(data)[k + 1];
    SlotAt(data, k);
    SlotAt(data, k + 1);
    OffsetStep(data, q.group);
    OffsetMonotone(data, q.group + 1, s.group);
    assert q.group == s.group ==> q.index == s.index + 1;
  }

  /** The web export writes one file per chapter, the renderer's markup for
      that chapter and its neighbours, under the group directory. */
  lemma HtmlWrites(out: string, data: seq<Group>, render: Renderer, k: nat)
    requires k < TotalChapters(data)
    ensures var writes := Sequences.Filter(IsWrite, ExportEffects(out, data, HtmlFile(render)));
      var s := Slots(data)[k]; var page := render(s.chapter, Prev(s), Next(s));
      && |writes| == TotalChapters(data)
      && writes[k] == WriteFile(PathJoin(GroupDir(out, s.name), page.1), page.0)
  {
    ExportWrites(out, data, HtmlFile(render));
  }
}
