/** `make_epubs`: one e-book per group that has chapters. */
module Epubs {
  import opened Books
  import opened Sequences

  /** The e-book builder `bind_epub_book(app, volume=, chapters=)`, which
      answers the path of the book it made. */
  type Builder = (string, seq<Chapter>) -> string

  predicate NonEmpty(g: Group)
  {
    |g.chapters| > 0
  }

  /** The groups `make_epubs` binds: the non-empty ones, in dict order. */
  function NonEmptyGroups(data: seq<Group>): seq<Group>
  {
    Filter(NonEmpty, data)
  }

  /** The builder calls for `groups`, one per group, in order. */
  function EpubCalls(groups: seq<Group>): seq<Effect>
  {
    seq(|groups|, k requires 0 <= k < |groups| => BindEpub(groups[k].name, groups[k].chapters))
  }

  /** What the builder answers for `groups`, in order. */
  function EpubPaths(build: Builder, groups: seq<Group>): seq<string>
  {
    seq(|groups|, k requires 0 <= k < |groups| => build(groups[k].name, groups[k].chapters))
  }

  /** `make_epubs(app, data)`. */
  method MakeEpubs(data: seq<Group>, build: Builder) returns (epubFiles: seq<string>, effects: seq<Effect>)
    ensures effects == EpubCalls(NonEmptyGroups(data))
    ensures epubFiles == EpubPaths(build, NonEmptyGroups(data))
    ensures forall k :: 0 <= k < |effects| ==> |effects[k].chapters| > 0
  {
    epubFiles, effects := [], [];
    for i := 0 to |data|
      invariant effects == EpubCalls(NonEmptyGroups(data[..i]))
      invariant epubFiles == EpubPaths(build, NonEmptyGroups(data[..i]))
    {
      var vol := data[i];
      assert data[..i + 1] == data[..i] + [vol];
      FilterAppend(NonEmpty, data[..i], [vol]);
      if |vol.chapters| > 0 {
        epubFiles := epubFiles + [build(vol.name, vol.chapters)];
        effects := effects + [BindEpub(vol.name, vol.chapters)];
      }
    }
    assert data[..|data|] == data;
    NonEmptyGroupsExact(data);
  }

  /** The bound groups are exactly the non-empty groups, each as often as
      in the dict, in dict order. */
  lemma NonEmptyGroupsExact(data: seq<Group>)
    ensures forall g :: g in NonEmptyGroups(data) <==> g in data && |g.chapters| > 0
    ensures forall g :: multiset(NonEmptyGroups(data))[g] == if |g.chapters| > 0 then multiset(data)[g] else 0
    ensures IsSubsequence(NonEmptyGroups(data), data)
    ensures forall k :: 0 <= k < |NonEmptyGroups(data)| ==> |NonEmptyGroups(data)[k].chapters| > 0
  {
    forall g ensures g in NonEmptyGroups(data) <==> g in data && |g.chapters| > 0 {
      FilterMembership(NonEmpty, data, g);
    }
    forall g ensures multiset(NonEmptyGroups(data))[g] == if |g.chapters| > 0 then multiset(data)[g] else 0 {
      FilterMultiplicity(NonEmpty, data, g);
    }
    FilterKeepsOrder(NonEmpty, data);
  }

  /** Filtering keeps distinct keys distinct. */
  lemma {:induction false} NonEmptyNamesDistinct(data: seq<Group>)
    requires Distinct(Names(data))
    ensures Distinct(Names(NonEmptyGroups(data)))
    decreases |data|
  {
    if data != [] {
      var rest := data[1..];
      assert Names(rest) == Names(data)[1..];
      NonEmptyNamesDistinct(rest);
      if NonEmpty(data[0]) {
        var kept := NonEmptyGroups(rest);
        assert NonEmptyGroups(data) == [data[0]] + kept;
        forall k | 0 <= k < |kept|
          ensures Names(kept)[k] != data[0].name
        {
          FilterMembership(NonEmpty, rest, kept[k]);
          var j :| 0 <= j < |rest| && rest[j] == kept[k];
          assert Names(data)[j + 1] == kept[k].name == Names(kept)[k];
          assert Names(data)[0] == data[0].name;
        }
        assert Names(NonEmptyGroups(data)) == [data[0].name] + Names(kept);
      } else {
        assert NonEmptyGroups(data) == NonEmptyGroups(rest);
      }
    }
  }

  /** With distinct keys (as a dict has), `make_epubs` calls the builder
      exactly once for each non-empty group and never for an empty one. */
  lemma BuildOncePerGroup(data: seq<Group>, j: nat)
    requires Distinct(Names(data))
    requires j < |data|
    ensures var calls := EpubCalls(NonEmptyGroups(data));
      && (|data[j].chapters| > 0 ==>
            exists k :: 0 <= k < |calls| && calls[k] == BindEpub(data[j].name, data[j].chapters))
      && (forall k, l :: 0 <= k < l < |calls| ==> calls[k].volume != calls[l].volume)
      && (|data[j].chapters| == 0 ==> forall k :: 0 <= k < |calls| ==> calls[k].volume != data[j].name)
  {
    var kept := NonEmptyGroups(data);
    var calls := EpubCalls(kept);
    NonEmptyNamesDistinct(data);
    assert forall k :: 0 <= k < |kept| ==> Names(kept)[k] == calls[k].volume;
    if |data[j].chapters| > 0 {
      FilterMembership(NonEmpty, data, data[j]);
      var k :| 0 <= k < |kept| && kept[k] == data[j];
      assert calls[k] == BindEpub(data[j].name, data[j].chapters);
    } else {
      forall k | 0 <= k < |calls|
        ensures calls[k].volume != data[j].name
      {
        FilterMembership(NonEmpty, data, kept[k]);
        var i :| 0 <= i < |data| && data[i] == kept[k];
        assert Names(data)[i] == kept[k].name;
        assert Names(data)[j] == data[j].name;
      }
    }
  }
}
