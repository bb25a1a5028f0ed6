/** `make_data`: the chapter groups every later stage works on. */
module Grouping {
  import opened Books
  import opened Sequences
  import PyStr

  /** The dict key of a volume: `'Volume %d' % vol['id']`. */
  function VolumeName(id: int): string
  {
    "Volume " + PyStr.IntToString(id)
  }

  /** Different volume ids give different keys. */
  lemma VolumeNameInjective(a: int, b: int)
    ensures VolumeName(a) == VolumeName(b) ==> a == b
  {
    if VolumeName(a) == VolumeName(b) {
      assert VolumeName(a)[7..] == PyStr.IntToString(a);
      assert VolumeName(b)[7..] == PyStr.IntToString(b);
      PyStr.IntToStringInjective(a, b);
    }
  }

  /** Whether a chapter goes into the group of volume `id`: it belongs to
      that volume and has a non-empty body. */
  predicate InVolume(c: Chapter, id: int)
  {
    c.volume == Some(id) && |c.body| > 0
  }

  /** The comprehension that fills the group of volume `id`. */
  function VolumeChapters(chapters: seq<Chapter>, id: int): seq<Chapter>
  {
    Filter((c: Chapter) => InVolume(c, id), chapters)
  }

  /** `data[key] = value` on a dict: an existing key keeps its position and
      gets the new value, a new key goes to the end. */
  function Put(data: seq<Group>, key: string, value: seq<Chapter>): seq<Group>
  {
    if key in Names(data) then
      seq(|data|, k requires 0 <= k < |data| => if data[k].name == key then Group(key, value) else data[k])
    else data + [Group(key, value)]
  }

  /** `data.get(key)`: the value stored under `key`, read from the first
      entry with that key. */
  function Get(data: seq<Group>, key: string): Option<seq<Chapter>>
    decreases |data|
  {
    if data == [] then None
    else if data[0].name == key then Some(data[0].chapters)
    else Get(data[1..], key)
  }

  /** Entry `k` after the assignment: an entry with another key is kept, the
      others (the old entry of `key`, or the new last one) hold the value. */
  lemma PutAt(data: seq<Group>, key: string, value: seq<Chapter>, k: nat)
    requires k < |Put(data, key, value)|
    ensures k <= |data|
    ensures Put(data, key, value)[k] == if k < |data| && data[k].name != key then data[k] else Group(key, value)
  {
    if key !in Names(data) && k < |data| {
      assert Names(data)[k] == data[k].name;
    }
  }

  /** A key that no entry has is not found. */
  lemma {:induction false} GetMissing(data: seq<Group>, key: string)
    requires forall j :: 0 <= j < |data| ==> data[j].name != key
    ensures Get(data, key) == None
    decreases |data|
  {
    if data != [] {
      assert forall j :: 0 <= j < |data[1..]| ==> data[1..][j].name == data[j + 1].name;
      GetMissing(data[1..], key);
    }
  }

  /** The lookup answers the first entry with the key. */
  lemma {:induction false} GetFirst(data: seq<Group>, key: string, i: nat)
    requires i < |data| && data[i].name == key
    requires forall j :: 0 <= j < i ==> data[j].name != key
    ensures Get(data, key) == Some(data[i].chapters)
    decreases i
  {
    if i > 0 {
      assert data[1..][i - 1] == data[i];
      assert forall j :: 0 <= j < i - 1 ==> data[1..][j].name == data[j + 1].name;
      GetFirst(data[1..], key, i - 1);
    }
  }

  /** A key some entry has has a first such entry. */
  lemma {:induction false} FirstWithKey(data: seq<Group>, key: string) returns (i: nat)
    requires key in Names(data)
    ensures i < |data| && data[i].name == key
    ensures forall j :: 0 <= j < i ==> data[j].name != key
    decreases |data|
  {
    if data[0].name == key {
      i := 0;
    } else {
      assert Names(data) == [data[0].name] + Names(data[1..]);
      var i' := FirstWithKey(data[1..], key);
      i := i' + 1;
      assert forall j :: 1 <= j < i ==> data[j] == data[1..][j - 1];
    }
  }

  /** Reading after `data[key] = value`: the key gives the new value and
      every other key what it gave before. */
  lemma PutGet(data: seq<Group>, key: string, value: seq<Chapter>, other: string)
    ensures Get(Put(data, key, value), other) == if other == key then Some(value) else Get(data, other)
  {
    var after := Put(data, key, value);
    forall k | 0 <= k < |after|
      ensures k <= |data|
      ensures after[k] == if k < |data| && data[k].name != key then data[k] else Group(key, value)
    {
      PutAt(data, key, value, k);
    }
    if other == key {
      var i: nat;
      if key in Names(data) {
        i := FirstWithKey(data, key);
      } else {
        i := |data|;
        forall j | 0 <= j < |data| ensures data[j].name != key {
          assert Names(data)[j] == data[j].name;
        }
      }
      GetFirst(after, key, i);
    } else if other in Names(data) {
      var i := FirstWithKey(data, other);
      GetFirst(data, other, i);
      GetFirst(after, other, i);
    } else {
      forall j | 0 <= j < |data| ensures data[j].name != other {
        assert Names(data)[j] == data[j].name;
      }
      GetMissing(data, other);
      GetMissing(after, other);
    }
  }

  /** The keys of a non-empty volume list. */
  function VolumeNames(volumes: seq<Volume>): seq<string>
  {
    seq(|volumes|, k requires 0 <= k < |volumes| => VolumeName(volumes[k].id))
  }

  /** The dict `make_data` builds when packing by volume: one assignment per
      volume, in the given order. */
  function GroupByVolume(chapters: seq<Chapter>, volumes: seq<Volume>): seq<Group>
    decreases |volumes|
  {
    if volumes == [] then []
    else
      var v := volumes[|volumes| - 1];
      Put(GroupByVolume(chapters, volumes[..|volumes| - 1]), VolumeName(v.id), VolumeChapters(chapters, v.id))
  }

  /** What `make_data` returns. */
  function Grouped(chapters: seq<Chapter>, volumes: seq<Volume>, packByVolume: bool): seq<Group>
  {
    if packByVolume then GroupByVolume(chapters, volumes) else [Group("", chapters)]
  }

  /** `make_data(app)`. */
  method MakeData(chapters: seq<Chapter>, volumes: seq<Volume>, packByVolume: bool)
    returns (data: seq<Group>)
    ensures data == Grouped(chapters, volumes, packByVolume)
    ensures !packByVolume ==> data == [Group("", chapters)]
    ensures packByVolume ==> Names(data) == FirstOccurrences(VolumeNames(volumes))
    ensures packByVolume ==> forall k :: 0 <= k < |data| ==> GroupOfSomeVolume(data[k], chapters, volumes)
  {
    data := [];
    if packByVolume {
      for i := 0 to |volumes|
        invariant data == GroupByVolume(chapters, volumes[..i])
      {
        var vol := volumes[i];
        assert volumes[..i + 1][..i] == volumes[..i];
        data := Put(data, VolumeName(vol.id), VolumeChapters(chapters, vol.id));
      }
      assert volumes[..|volumes|] == volumes;
      GroupNamesInVolumeOrder(chapters, volumes);
      GroupsComeFromVolumes(chapters, volumes);
    } else {
      data := [Group("", chapters)];
    }
  }

  /** The groups appear in the order their volumes first appear; a repeated
      volume id keeps its first position. */
  lemma {:induction false} GroupNamesInVolumeOrder(chapters: seq<Chapter>, volumes: seq<Volume>)
    ensures Names(GroupByVolume(chapters, volumes)) == FirstOccurrences(VolumeNames(volumes))
    decreases |volumes|
  {
    if volumes != [] {
      var init := volumes[..|volumes| - 1];
      var v := volumes[|volumes| - 1];
      GroupNamesInVolumeOrder(chapters, init);
      var before := GroupByVolume(chapters, init);
      var names := VolumeNames(volumes);
      assert names[..|volumes| - 1] == VolumeNames(init);
      assert names[|volumes| - 1] == VolumeName(v.id);
      assert GroupByVolume(chapters, volumes) == Put(before, VolumeName(v.id), VolumeChapters(chapters, v.id));
      PutNames(before, VolumeName(v.id), VolumeChapters(chapters, v.id));
      assert FirstOccurrences(names) ==
        if VolumeName(v.id) in FirstOccurrences(VolumeNames(init)) then FirstOccurrences(VolumeNames(init))
        else FirstOccurrences(VolumeNames(init)) + [VolumeName(v.id)];
    }
  }

  /** The keys after `data[key] = value`: unchanged for an existing key, the
      new key appended otherwise. */
  lemma PutNames(data: seq<Group>, key: string, value: seq<Chapter>)
    ensures Names(Put(data, key, value)) == if key in Names(data) then Names(data) else Names(data) + [key]
  {
    var after := Put(data, key, value);
    if key in Names(data) {
      assert Names(after) == Names(data);
    } else {
      assert Names(after) == Names(data) + [key];
    }
  }

  /** `g` is the group that the assignment for one of `volumes` stores. */
  ghost predicate GroupOfSomeVolume(g: Group, chapters: seq<Chapter>, volumes: seq<Volume>)
  {
    exists v :: v in volumes && g == Group(VolumeName(v.id), VolumeChapters(chapters, v.id))
  }

  /** Every group is the group of one of the volumes, holding exactly that
      volume's non-empty chapters. */
  lemma {:induction false} GroupsComeFromVolumes(chapters: seq<Chapter>, volumes: seq<Volume>)
    ensures forall k :: 0 <= k < |GroupByVolume(chapters, volumes)| ==>
      GroupOfSomeVolume(GroupByVolume(chapters, volumes)[k], chapters, volumes)
    decreases |volumes|
  {
    if volumes != [] {
      var init := volumes[..|volumes| - 1];
      var v := volumes[|volumes| - 1];
      GroupsComeFromVolumes(chapters, init);
      var before := GroupByVolume(chapters, init);
      var after := GroupByVolume(chapters, volumes);
      forall k | 0 <= k < |after|
        ensures GroupOfSomeVolume(after[k], chapters, volumes)
      {
        PutAt(before, VolumeName(v.id), VolumeChapters(chapters, v.id), k);
        if k < |before| && before[k].name != VolumeName(v.id) {
          assert GroupOfSomeVolume(before[k], chapters, init);
          var w :| w in init && before[k] == Group(VolumeName(w.id), VolumeChapters(chapters, w.id));
          assert w in volumes && after[k] == before[k];
        } else {
          assert v in volumes && after[k] == Group(VolumeName(v.id), VolumeChapters(chapters, v.id));
        }
      }
    }
  }

  /** Every volume has a group. */
  lemma EveryVolumeHasGroup(chapters: seq<Chapter>, volumes: seq<Volume>, v: Volume)
    requires v in volumes
    ensures VolumeName(v.id) in Names(GroupByVolume(chapters, volumes))
  {
    var k :| 0 <= k < |volumes| && volumes[k] == v;
    assert VolumeNames(volumes)[k] == VolumeName(v.id);
    GroupNamesInVolumeOrder(chapters, volumes);
  }

  /** With packing by volume, the group keyed `'Volume n'` holds exactly the
      chapters of volume n that have a non-empty body, in input order, each
      as often as it occurs in the input. */
  lemma PackedGroupContents(chapters: seq<Chapter>, volumes: seq<Volume>, k: nat, n: int)
    requires k < |GroupByVolume(chapters, volumes)|
    requires GroupByVolume(chapters, volumes)[k].name == VolumeName(n)
    ensures var group := GroupByVolume(chapters, volumes)[k].chapters;
      && group == VolumeChapters(chapters, n)
      && (forall c :: c in group <==> c in chapters && c.volume == Some(n) && |c.body| > 0)
      && (forall c :: multiset(group)[c] == if InVolume(c, n) then multiset(chapters)[c] else 0)
      && IsSubsequence(group, chapters)
  {
    GroupsComeFromVolumes(chapters, volumes);
    assert GroupOfSomeVolume(GroupByVolume(chapters, volumes)[k], chapters, volumes);
    var v :| v in volumes &&
      GroupByVolume(chapters, volumes)[k] == Group(VolumeName(v.id), VolumeChapters(chapters, v.id));
    VolumeNameInjective(v.id, n);
    var p := (c: Chapter) => InVolume(c, n);
    forall c ensures c in Filter(p, chapters) <==> c in chapters && InVolume(c, n) {
      FilterMembership(p, chapters, c);
    }
    forall c ensures multiset(Filter(p, chapters))[c] == if InVolume(c, n) then multiset(chapters)[c] else 0 {
      FilterMultiplicity(p, chapters, c);
    }
    FilterKeepsOrder(p, chapters);
  }

  /** With packing by volume, a chapter only ever appears in the group of
      its own volume, and only if its body is non-empty. */
  lemma ChapterOnlyInOwnVolume(chapters: seq<Chapter>, volumes: seq<Volume>, k: nat, c: Chapter)
    requires k < |GroupByVolume(chapters, volumes)|
    requires c in GroupByVolume(chapters, volumes)[k].chapters
    ensures c in chapters && c.volume.Some? && |c.body| > 0
    ensures GroupByVolume(chapters, volumes)[k].name == VolumeName(c.volume.value)
  {
    GroupsComeFromVolumes(chapters, volumes);
    assert GroupOfSomeVolume(GroupByVolume(chapters, volumes)[k], chapters, volumes);
    var v :| v in volumes &&
      GroupByVolume(chapters, volumes)[k] == Group(VolumeName(v.id), VolumeChapters(chapters, v.id));
    FilterMembership((x: Chapter) => InVolume(x, v.id), chapters, c);
  }

  /** The keys of the grouped dict are pairwise distinct. */
  lemma GroupNamesDistinct(chapters: seq<Chapter>, volumes: seq<Volume>, packByVolume: bool)
    ensures Distinct(Names(Grouped(chapters, volumes, packByVolume)))
  {
    if packByVolume {
      GroupNamesInVolumeOrder(chapters, volumes);
    }
  }
}
