/** The directory layout and the file writes that the text and the HTML
    exports share: one directory per group, created first, then one file
    per chapter of that group, groups in dict order and chapters in list
    order. */
module Layout {
  import opened Books
  import opened PyStr
  import opened Sequences

  /** `os.path.join(app.output_path, 'web', vol)`. */
  function GroupDir(out: string, name: string): string
  {
    PathJoin(PathJoin(out, "web"), name)
  }

  /** A chapter at its place in the grouped dict: the position `group` of
      its group, the group's key and list, and its index in that list. */
  datatype Slot = Slot(group: nat, name: string, chapters: seq<Chapter>, index: nat, chapter: Chapter)

  /** The slots of one group, in list order. */
  function GroupSlots(g: nat, grp: Group): seq<Slot>
  {
    seq(|grp.chapters|, i requires 0 <= i < |grp.chapters| => Slot(g, grp.name, grp.chapters, i, grp.chapters[i]))
  }

  /** The slots of all groups: groups in dict order, then chapters in list
      order (the order of the two nested loops). */
  function Slots(data: seq<Group>): (r: seq<Slot>)
    ensures |r| == TotalChapters(data)
    decreases |data|
  {
    if data == [] then []
    else Slots(data[..|data| - 1]) + GroupSlots(|data| - 1, data[|data| - 1])
  }

  /** The number of chapters over all groups. */
  function TotalChapters(data: seq<Group>): nat
    decreases |data|
  {
    if data == [] then 0
    else TotalChapters(data[..|data| - 1]) + |data[|data| - 1].chapters|
  }

  lemma {:induction false} TotalChaptersOfPrefix(data: seq<Group>, n: nat)
    requires n <= |data|
    ensures TotalChapters(data[..n]) <= TotalChapters(data)
    decreases |data|
  {
    if n < |data| {
      var init := data[..|data| - 1];
      TotalChaptersOfPrefix(init, n);
      assert init[..n] == data[..n];
    } else {
      assert data[..n] == data;
    }
  }

  /** Where the chapters of group `g` start among all slots. */
  function Offset(data: seq<Group>, g: nat): nat
    requires g <= |data|
  {
    TotalChapters(data[..g])
  }

  /** The chapters of group `g` end where those of group `g + 1` start. */
  lemma OffsetStep(data: seq<Group>, g: nat)
    requires g < |data|
    ensures Offset(data, g + 1) == Offset(data, g) + |data[g].chapters|
  {
    assert data[..g + 1][..g] == data[..g];
  }

  /** Later groups start no earlier. */
  lemma OffsetMonotone(data: seq<Group>, a: nat, b: nat)
    requires b <= |data|
    ensures a <= b ==> Offset(data, a) <= Offset(data, b)
  {
    if a <= b {
      TotalChaptersOfPrefix(data[..b], a);
      assert data[..b][..a] == data[..a];
    }
  }

  /** Slot k names a real group, carries that group's key and list and the
      chapter at its index, and sits after the chapters of all earlier
      groups. */
  lemma {:induction false} SlotAt(data: seq<Group>, k: nat)
    requires k < TotalChapters(data)
    ensures var s := Slots(data)[k];
      && s.group < |data|
      && s.name == data[s.group].name
      && s.chapters == data[s.group].chapters
      && s.index < |s.chapters|
      && s.chapter == s.chapters[s.index]
      && k == Offset(data, s.group) + s.index
    decreases |data|
  {
    var n := |data| - 1;
    var init := data[..n];
    assert init[..n] == data[..n];
    if k < TotalChapters(init) {
      SlotAt(init, k);
      var s := Slots(init)[k];
      assert Slots(data)[k] == s;
      assert init[..s.group] == data[..s.group];
    } else {
      assert Slots(data)[k] == GroupSlots(n, data[n])[k - TotalChapters(init)];
    }
  }

  /** Conversely, chapter `i` of group `g` is the slot right after the
      chapters of the earlier groups. */
  lemma {:induction false} SlotAtOffset(data: seq<Group>, g: nat, i: nat)
    requires g < |data| && i < |data[g].chapters|
    ensures Offset(data, g) + i < |Slots(data)|
    ensures Slots(data)[Offset(data, g) + i] == Slot(g, data[g].name, data[g].chapters, i, data[g].chapters[i])
    decreases |data|
  {
    var n := |data| - 1;
    var init := data[..n];
    if g < n {
      SlotAtOffset(init, g, i);
      assert init[..g] == data[..g];
      assert Slots(data)[Offset(data, g) + i] == Slots(init)[Offset(data, g) + i];
    } else {
      assert data[..g] == init;
      assert Slots(data)[Offset(data, g) + i] == GroupSlots(n, data[n])[i];
    }
  }

  /** What the export writes for one slot: the file name under the group
      directory and the content, as computed by `file`. */
  function SlotWrite(out: string, file: Slot -> (string, string), s: Slot): Effect
  {
    WriteFile(PathJoin(GroupDir(out, s.name), file(s).0), file(s).1)
  }

  function SlotWrites(out: string, file: Slot -> (string, string), ss: seq<Slot>): seq<Effect>
  {
    seq(|ss|, k requires 0 <= k < |ss| => SlotWrite(out, file, ss[k]))
  }

  lemma SlotWritesAppend(out: string, file: Slot -> (string, string), a: seq<Slot>, b: seq<Slot>)
    ensures SlotWrites(out, file, a + b) == SlotWrites(out, file, a) + SlotWrites(out, file, b)
  {
  }

  /** The outer loop of an export at the end of group `g`: the export of
      `data[..g]`, the directory of group `g` and the writes of all its
      chapters make the export of `data[..g + 1]`. */
  lemma ExportGroupDone(out: string, data: seq<Group>, file: Slot -> (string, string), g: nat, effects: seq<Effect>)
    requires g < |data|
    requires effects == ExportEffects(out, data[..g], file) + [MakeDirs(GroupDir(out, data[g].name))]
      + SlotWrites(out, file, GroupSlots(g, data[g])[..|data[g].chapters|])
    ensures effects == ExportEffects(out, data[..g + 1], file)
  {
    assert GroupSlots(g, data[g])[..|data[g].chapters|] == GroupSlots(g, data[g]);
    assert data[..g + 1][..g] == data[..g];
  }

  /** Creating a directory records no path. */
  lemma MakeDirsRecordsNoPath(effects: seq<Effect>, dir: string)
    ensures WrittenPaths(effects + [MakeDirs(dir)]) == WrittenPaths(effects)
  {
    assert (effects + [MakeDirs(dir)])[..|effects|] == effects;
  }

  /** One step of an export's inner loop: after the directory of group `g`
      and the writes of its first `i` chapters, writing chapter `i` (whose
      file `file` names `name` with `content`) extends both the effects and
      the recorded paths by that chapter's file. */
  lemma GroupWriteStep(out: string, file: Slot -> (string, string), done: seq<Effect>, g: nat, grp: Group, i: nat,
                       effects: seq<Effect>, paths: seq<string>, name: string, content: string)
    requires i < |grp.chapters|
    requires file(Slot(g, grp.name, grp.chapters, i, grp.chapters[i])) == (name, content)
    requires effects == done + [MakeDirs(GroupDir(out, grp.name))] + SlotWrites(out, file, GroupSlots(g, grp)[..i])
    requires paths == WrittenPaths(effects)
    ensures var path := PathJoin(GroupDir(out, grp.name), name);
      && effects + [WriteFile(path, content)]
        == done + [MakeDirs(GroupDir(out, grp.name))] + SlotWrites(out, file, GroupSlots(g, grp)[..i + 1])
      && paths + [path] == WrittenPaths(effects + [WriteFile(path, content)])
  {
    var ss := GroupSlots(g, grp);
    assert ss[..i + 1] == ss[..i] + [ss[i]];
    SlotWritesAppend(out, file, ss[..i], [ss[i]]);
    var w := SlotWrite(out, file, ss[i]);
    WrittenPathsAppend(effects, [w]);
  }

  /** One group: create its directory, then write one file per chapter. */
  function GroupEffects(out: string, g: nat, grp: Group, file: Slot -> (string, string)): seq<Effect>
  {
    [MakeDirs(GroupDir(out, grp.name))] + SlotWrites(out, file, GroupSlots(g, grp))
  }

  /** An export stage: every group in dict order. */
  function ExportEffects(out: string, data: seq<Group>, file: Slot -> (string, string)): seq<Effect>
    decreases |data|
  {
    if data == [] then []
    else ExportEffects(out, data[..|data| - 1], file) + GroupEffects(out, |data| - 1, data[|data| - 1], file)
  }

  predicate IsWrite(e: Effect)
  {
    e.WriteFile?
  }

  predicate IsMakeDirs(e: Effect)
  {
    e.MakeDirs?
  }

  lemma FilterWritesOfWrites(out: string, file: Slot -> (string, string), ss: seq<Slot>)
    ensures Filter(IsWrite, SlotWrites(out, file, ss)) == SlotWrites(out, file, ss)
    ensures Filter(IsMakeDirs, SlotWrites(out, file, ss)) == []
  {
    FilterAll(IsWrite, SlotWrites(out, file, ss));
    FilterNone(IsMakeDirs, SlotWrites(out, file, ss));
  }

  lemma {:induction false} FilterNone<T>(p: T -> bool, s: seq<T>)
    requires forall k :: 0 <= k < |s| ==> !p(s[k])
    ensures Filter(p, s) == []
    decreases |s|
  {
    if s != [] {
      FilterNone(p, s[1..]);
    }
  }

  /** The directories an export creates: one per group, in dict order,
      even for a group with no chapters. */
  function GroupDirs(out: string, data: seq<Group>): seq<Effect>
  {
    seq(|data|, g requires 0 <= g < |data| => MakeDirs(GroupDir(out, data[g].name)))
  }

  /** An export writes exactly one file per chapter, in slot order. */
  lemma {:induction false} ExportWrites(out: string, data: seq<Group>, file: Slot -> (string, string))
    ensures Filter(IsWrite, ExportEffects(out, data, file)) == SlotWrites(out, file, Slots(data))
    decreases |data|
  {
    if data != [] {
      var n := |data| - 1;
      var init := data[..n];
      var before := ExportEffects(out, init, file);
      var ss := GroupSlots(n, data[n]);
      var writes := SlotWrites(out, file, ss);
      ExportWrites(out, init, file);
      FilterWritesOfWrites(out, file, ss);
      FilterWritesAfterDir(before, GroupDir(out, data[n].name), writes);
      SlotWritesAppend(out, file, Slots(init), ss);
    }
  }

  /** Filtering the writes of an export extended by one group: the
      directory drops out and the group's writes are kept. */
  lemma FilterWritesAfterDir(before: seq<Effect>, d: string, writes: seq<Effect>)
    requires Filter(IsWrite, writes) == writes
    ensures Filter(IsWrite, before + ([MakeDirs(d)] + writes)) == Filter(IsWrite, before) + writes
  {
    FilterCons(IsWrite, MakeDirs(d), writes);
    FilterAppend(IsWrite, before, [MakeDirs(d)] + writes);
  }

  /** An export creates exactly one directory per group, in dict order. */
  lemma {:induction false} ExportDirs(out: string, data: seq<Group>, file: Slot -> (string, string))
    ensures Filter(IsMakeDirs, ExportEffects(out, data, file)) == GroupDirs(out, data)
    decreases |data|
  {
    if data != [] {
      var n := |data| - 1;
      var init := data[..n];
      var before := ExportEffects(out, init, file);
      var dir := [MakeDirs(GroupDir(out, data[n].name))];
      var ss := GroupSlots(n, data[n]);
      var writes := SlotWrites(out, file, ss);
      calc {
        Filter(IsMakeDirs, ExportEffects(out, data, file));
        { FilterAppend(IsMakeDirs, before, dir + writes); }
        Filter(IsMakeDirs, before) + Filter(IsMakeDirs, dir + writes);
        { FilterAppend(IsMakeDirs, dir, writes); FilterWritesOfWrites(out, file, ss); ExportDirs(out, init, file); }
        GroupDirs(out, init) + dir;
        GroupDirs(out, data);
      }
    }
  }

  /** The paths an export records are the paths of its writes, in order. */
  lemma {:induction false} ExportPaths(out: string, data: seq<Group>, file: Slot -> (string, string))
    ensures var paths := WrittenPaths(ExportEffects(out, data, file)); var ss := Slots(data);
      && |paths| == |ss|
      && forall k :: 0 <= k < |ss| ==> paths[k] == PathJoin(GroupDir(out, ss[k].name), file(ss[k]).0)
    decreases |data|
  {
    if data != [] {
      var n := |data| - 1;
      var init := data[..n];
      ExportPaths(out, init, file);
      var ss := GroupSlots(n, data[n]);
      WrittenPathsAppend(ExportEffects(out, init, file), GroupEffects(out, n, data[n], file));
      WrittenPathsAppend([MakeDirs(GroupDir(out, data[n].name))], SlotWrites(out, file, ss));
      WrittenPathsOfWrites(out, file, ss);
    }
  }

  lemma {:induction false} WrittenPathsOfWrites(out: string, file: Slot -> (string, string), ss: seq<Slot>)
    ensures var paths := WrittenPaths(SlotWrites(out, file, ss));
      && |paths| == |ss|
      && forall k :: 0 <= k < |ss| ==> paths[k] == PathJoin(GroupDir(out, ss[k].name), file(ss[k]).0)
    decreases |ss|
  {
    if ss != [] {
      var init := ss[..|ss| - 1];
      WrittenPathsOfWrites(out, file, init);
      assert SlotWrites(out, file, ss)[..|ss| - 1] == SlotWrites(out, file, init);
    }
  }

  /** Every file is written after the directory it lives in was created. */
  lemma {:induction false} DirectoryBeforeWrite(out: string, data: seq<Group>, file: Slot -> (string, string), k: nat)
    requires k < |ExportEffects(out, data, file)|
    requires ExportEffects(out, data, file)[k].WriteFile?
    ensures exists j: nat, s: Slot ::
      && j < k
      && ExportEffects(out, data, file)[j] == MakeDirs(GroupDir(out, s.name))
      && ExportEffects(out, data, file)[k] == SlotWrite(out, file, s)
    decreases |data|
  {
    var n := |data| - 1;
    var init := data[..n];
    var before := ExportEffects(out, init, file);
    var effects := ExportEffects(out, data, file);
    if k < |before| {
      DirectoryBeforeWrite(out, init, file, k);
      var j: nat, s: Slot :| j < k && before[j] == MakeDirs(GroupDir(out, s.name)) && before[k] == SlotWrite(out, file, s);
      assert effects[j] == before[j] && effects[k] == before[k];
    } else {
      var ss := GroupSlots(n, data[n]);
      var j := |before|;
      assert effects[j] == MakeDirs(GroupDir(out, data[n].name));
      assert k != j;
      var s := ss[k - j - 1];
      assert effects[k] == SlotWrite(out, file, s);
      assert s.name == data[n].name;
    }
  }
}
