/** `make_texts`: one plain-text file per chapter. */
module TextExport {
  import opened Books
  import opened PyStr
  import opened Layout
  import opened Texts

  /** The file a chapter gets in the text export: its zero-padded name and
      its normalised text, given the markup stripper `strip`. */
  function TextFile(strip: string -> string): Slot -> (string, string)
  {
    (s: Slot) => (TextFileName(s.chapter.id), TextContent(strip, s.chapter.body))
  }

  /** `make_texts(app, data)`, with `app.output_path` as `out` and the
      BeautifulSoup text extraction as `strip`. */
  method MakeTexts(data: seq<Group>, out: string, strip: string -> string)
    returns (textFiles: seq<string>, effects: seq<Effect>)
    ensures effects == ExportEffects(out, data, TextFile(strip))
    ensures textFiles == WrittenPaths(effects)
    ensures |textFiles| == TotalChapters(data)
    ensures forall k :: 0 <= k < |textFiles| ==>
      textFiles[k] == PathJoin(GroupDir(out, Slots(data)[k].name), TextFileName(Slots(data)[k].chapter.id))
  {
    textFiles, effects := [], [];
    for g := 0 to |data|
      invariant effects == ExportEffects(out, data[..g], TextFile(strip))
      invariant textFiles == WrittenPaths(effects)
    {
      var vol := data[g];
      var dirName := GroupDir(out, vol.name);
      ghost var done := effects;
      MakeDirsRecordsNoPath(effects, dirName);
      effects := effects + [MakeDirs(dirName)];
      for i := 0 to |vol.chapters|
        invariant effects == done + [MakeDirs(dirName)] + SlotWrites(out, TextFile(strip), GroupSlots(g, vol)[..i])
        invariant textFiles == WrittenPaths(effects)
      {
        var chap := vol.chapters[i];
        var fileName := TextFileName(chap.id);
        var text := TextContent(strip, chap.body);
        TextFileAt(strip, g, vol, i);
        GroupWriteStep(out, TextFile(strip), done, g, vol, i, effects, textFiles, fileName, text);
        fileName := PathJoin(dirName, fileName);
        effects := effects + [WriteFile(fileName, text)];
        textFiles := textFiles + [fileName];
      }
      ExportGroupDone(out, data, TextFile(strip), g, effects);
    }
    assert data[..|data|] == data;
    TextExportPaths(out, data, strip);
  }

  /** The file of chapter `i` of a group, as `make_texts` computes it. */
  lemma TextFileAt(strip: string -> string, g: nat, grp: Group, i: nat)
    requires i < |grp.chapters|
    ensures var c := grp.chapters[i];
      TextFile(strip)(Slot(g, grp.name, grp.chapters, i, c)) == (TextFileName(c.id), TextContent(strip, c.body))
  {
  }

  /** The text export records one path per chapter, in slot order: the
      chapter's zero-padded file name joined to its group directory. */
  lemma TextExportPaths(out: string, data: seq<Group>, strip: string -> string)
    ensures var paths := WrittenPaths(ExportEffects(out, data, TextFile(strip)));
      && |paths| == TotalChapters(data)
      && forall k :: 0 <= k < |paths| ==>
        paths[k] == PathJoin(GroupDir(out, Slots(data)[k].name), TextFileName(Slots(data)[k].chapter.id))
  {
    ExportPaths(out, data, TextFile(strip));
  }

  /** A text file name never starts with `/`, so joining it keeps it under
      the group directory. */
  lemma TextFileNameRelative(id: int)
    ensures TextFileName(id)[0] != '/'
  {
    var digits := IntToString(id);
    var padded := RJust(digits, 5, '0');
    assert TextFileName(id)[0] == padded[0];
    if |digits| >= 5 {
      assert padded == digits;
      if id >= 0 {
        assert IsDigit(NatToString(id)[0]);
      }
    }
  }

  /** Each text path lies under `<out>/web/<group>` and ends with the
      chapter's file name: the group directory is a prefix, the file name
      a suffix, and at most a `/` stands between them. */
  lemma TextPathUnderGroup(out: string, data: seq<Group>, strip: string -> string, k: nat)
    requires k < TotalChapters(data)
    ensures var paths := WrittenPaths(ExportEffects(out, data, TextFile(strip)));
      var s := Slots(data)[k]; var dir := GroupDir(out, s.name); var name := TextFileName(s.chapter.id);
      && |paths| == TotalChapters(data)
      && |dir| + |name| <= |paths[k]| <= |dir| + |name| + 1
      && paths[k][..|dir|] == dir
      && paths[k][|paths[k]| - |name|..] == name
  {
    SlotAt(data, k);
    ExportPaths(out, data, TextFile(strip));
    var s := Slots(data)[k];
    TextFileNameRelative(s.chapter.id);
    PathJoinUnder(GroupDir(out, s.name), TextFileName(s.chapter.id));
  }

  /** The text file of every chapter holds its normalised text: what the
      stripper extracts, with every run of line breaks as one CR LF CR LF. */
  lemma TextWritesContent(out: string, data: seq<Group>, strip: string -> string, k: nat)
    requires k < TotalChapters(data)
    ensures var writes := Sequences.Filter(IsWrite, ExportEffects(out, data, TextFile(strip)));
      var c := Slots(data)[k].chapter;
      && |writes| == TotalChapters(data)
      && writes[k].WriteFile?
      && writes[k].content == CollapseLineBreaks(strip(SplitParagraphs(c.body)))
      && CollapseLineBreaks(writes[k].content) == writes[k].content
  {
    SlotAt(data, k);
    ExportWrites(out, data, TextFile(strip));
    TextContentNormalised(strip, Slots(data)[k].chapter.body);
  }
}
