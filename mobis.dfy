/** `make_mobis`: find (or fetch) kindlegen, then convert every e-book. */
module Mobis {
  import opened Books
  import opened Sequences

  /** The converter `epub_to_mobi(kindlegen, epub)`, which answers the path
      of the mobi file it made, or a falsy value. */
  type Converter = (string, string) -> Option<string>

  /** The kindlegen `make_mobis` converts with, given what the first call
      of `retrieve_kindlegen` answers, the answer to the fetch prompt and
      what the call after the download answers; `None` when it gives up. */
  function Kindlegen(first: Option<string>, fetch: bool, second: Option<string>): Option<string>
  {
    if Truthy(first) then first
    else if !fetch then None
    else if Truthy(second) then second
    else None
  }

  /** The calls made before any conversion. */
  function ResolveEffects(first: Option<string>, fetch: bool): seq<Effect>
  {
    if Truthy(first) then [RetrieveKindlegen]
    else if !fetch then [RetrieveKindlegen, PromptFetch]
    else [RetrieveKindlegen, PromptFetch, DownloadKindlegen, RetrieveKindlegen]
  }

  /** One conversion call per e-book, in order. */
  function ConvertCalls(kindlegen: string, epubs: seq<string>): seq<Effect>
  {
    seq(|epubs|, k requires 0 <= k < |epubs| => EpubToMobi(kindlegen, epubs[k]))
  }

  /** The mobi files the conversion loop collects: the truthy answers, in
      order. */
  function KeptMobis(convert: Converter, kindlegen: string, epubs: seq<string>): seq<string>
    decreases |epubs|
  {
    if epubs == [] then []
    else
      var file := convert(kindlegen, epubs[|epubs| - 1]);
      KeptMobis(convert, kindlegen, epubs[..|epubs| - 1]) + (if Truthy(file) then [file.value] else [])
  }

  /** What `make_mobis` returns. */
  function MobiFiles(epubs: seq<string>, first: Option<string>, fetch: bool, second: Option<string>,
                     convert: Converter): Option<seq<string>>
  {
    var kindlegen := Kindlegen(first, fetch, second);
    if kindlegen.Some? then Some(KeptMobis(convert, kindlegen.value, epubs)) else None
  }

  /** What `make_mobis` does, in order. */
  function MobiEffects(epubs: seq<string>, first: Option<string>, fetch: bool, second: Option<string>): seq<Effect>
  {
    var kindlegen := Kindlegen(first, fetch, second);
    ResolveEffects(first, fetch) + if kindlegen.Some? then ConvertCalls(kindlegen.value, epubs) else []
  }

  /** `make_mobis(app, epubs)`: `first` and `second` are the answers of the
      two `retrieve_kindlegen` calls, `fetch` the answer to the prompt. */
  method MakeMobis(epubs: seq<string>, first: Option<string>, fetch: bool, second: Option<string>,
                   convert: Converter)
    returns (mobiFiles: Option<seq<string>>, effects: seq<Effect>)
    ensures mobiFiles == MobiFiles(epubs, first, fetch, second, convert)
    ensures effects == MobiEffects(epubs, first, fetch, second)
  {
    effects := [RetrieveKindlegen];
    var kindlegen := first;
    if !Truthy(kindlegen) {
      effects := effects + [PromptFetch];
      if !fetch {
        return None, effects;
      }
      effects := effects + [DownloadKindlegen];
      kindlegen := second;
      effects := effects + [RetrieveKindlegen];
      if !Truthy(kindlegen) {
        return None, effects;
      }
    }
    var tool := kindlegen.value;
    ghost var resolved := effects;
    assert Kindlegen(first, fetch, second) == Some(tool) && resolved == ResolveEffects(first, fetch);
    var kept := [];
    for i := 0 to |epubs|
      invariant kept == KeptMobis(convert, tool, epubs[..i])
      invariant effects == resolved + ConvertCalls(tool, epubs[..i])
    {
      var file := convert(tool, epubs[i]);
      ConvertStep(convert, tool, epubs, i);
      effects := effects + [EpubToMobi(tool, epubs[i])];
      if Truthy(file) {
        kept := kept + [file.value];
      }
    }
    assert epubs[..|epubs|] == epubs;
    mobiFiles := Some(kept);
  }

  /** One turn of the conversion loop: one more call, and one more kept
      file when the answer is truthy. */
  lemma ConvertStep(convert: Converter, kindlegen: string, epubs: seq<string>, i: nat)
    requires i < |epubs|
    ensures var file := convert(kindlegen, epubs[i]);
      KeptMobis(convert, kindlegen, epubs[..i + 1])
        == KeptMobis(convert, kindlegen, epubs[..i]) + (if Truthy(file) then [file.value] else [])
    ensures ConvertCalls(kindlegen, epubs[..i + 1]) == ConvertCalls(kindlegen, epubs[..i]) + [EpubToMobi(kindlegen, epubs[i])]
  {
    assert epubs[..i + 1][..i] == epubs[..i];
  }

  /** The exits of `make_mobis`: a usable first answer converts right away
      without prompting or downloading; declining the prompt, or a second
      answer that is still falsy, returns `None` without converting. */
  lemma MobiExits(epubs: seq<string>, first: Option<string>, fetch: bool, second: Option<string>, convert: Converter)
    ensures var r := MobiFiles(epubs, first, fetch, second, convert);
      var e := MobiEffects(epubs, first, fetch, second);
      && (Truthy(first) ==>
            && r == Some(KeptMobis(convert, first.value, epubs))
            && e == [RetrieveKindlegen] + ConvertCalls(first.value, epubs))
      && (!Truthy(first) && !fetch ==> r == None && e == [RetrieveKindlegen, PromptFetch])
      && (!Truthy(first) && fetch && !Truthy(second) ==>
            r == None && e == [RetrieveKindlegen, PromptFetch, DownloadKindlegen, RetrieveKindlegen])
      && (!Truthy(first) && fetch && Truthy(second) ==>
            && r == Some(KeptMobis(convert, second.value, epubs))
            && e == [RetrieveKindlegen, PromptFetch, DownloadKindlegen, RetrieveKindlegen] + ConvertCalls(second.value, epubs))
  {
  }

  /** Whatever the answers, kindlegen is looked up at most twice, the user
      is asked at most once, and it is downloaded at most once and only
      after a yes. */
  lemma MobiCallBounds(epubs: seq<string>, first: Option<string>, fetch: bool, second: Option<string>)
    ensures var e := multiset(MobiEffects(epubs, first, fetch, second));
      && e[RetrieveKindlegen] <= 2
      && e[PromptFetch] <= 1
      && e[DownloadKindlegen] <= 1
      && (e[DownloadKindlegen] == 1 ==> !Truthy(first) && fetch)
  {
    var kindlegen := Kindlegen(first, fetch, second);
    var pre := ResolveEffects(first, fetch);
    var rest := if kindlegen.Some? then ConvertCalls(kindlegen.value, epubs) else [];
    assert MobiEffects(epubs, first, fetch, second) == pre + rest;
    assert multiset(pre + rest) == multiset(pre) + multiset(rest);
    if kindlegen.Some? {
      ConvertCallsOnly(kindlegen.value, epubs);
    }
  }

  /** Every conversion uses the kindlegen that was found, and that one is
      truthy. */
  lemma ConvertsWithFoundKindlegen(epubs: seq<string>, first: Option<string>, fetch: bool, second: Option<string>, k: nat)
    requires k < |MobiEffects(epubs, first, fetch, second)|
    requires MobiEffects(epubs, first, fetch, second)[k].EpubToMobi?
    ensures Kindlegen(first, fetch, second).Some?
    ensures MobiEffects(epubs, first, fetch, second)[k].kindlegen == Kindlegen(first, fetch, second).value
    ensures Truthy(Kindlegen(first, fetch, second))
  {
  }

  lemma ConvertCallsOnly(kindlegen: string, epubs: seq<string>)
    ensures var m := multiset(ConvertCalls(kindlegen, epubs));
      m[RetrieveKindlegen] == 0 && m[PromptFetch] == 0 && m[DownloadKindlegen] == 0
  {
    var calls := ConvertCalls(kindlegen, epubs);
    assert RetrieveKindlegen !in calls && PromptFetch !in calls && DownloadKindlegen !in calls;
  }

  /** What the converter answers for each e-book. */
  function Answers(convert: Converter, kindlegen: string, epubs: seq<string>): seq<Option<string>>
  {
    seq(|epubs|, k requires 0 <= k < |epubs| => convert(kindlegen, epubs[k]))
  }

  /** The paths inside truthy answers. */
  function Values(answers: seq<Option<string>>): seq<string>
    requires forall k :: 0 <= k < |answers| ==> answers[k].Some?
  {
    seq(|answers|, k requires 0 <= k < |answers| => answers[k].value)
  }

  /** The collected mobi files are exactly the truthy answers of the
      converter, unwrapped, in e-book order: a falsy answer is skipped and
      nothing else is. */
  lemma {:induction false} KeptMobisAreTruthyAnswers(convert: Converter, kindlegen: string, epubs: seq<string>)
    ensures forall k :: 0 <= k < |Filter(Truthy, Answers(convert, kindlegen, epubs))| ==>
      Filter(Truthy, Answers(convert, kindlegen, epubs))[k].Some?
    ensures KeptMobis(convert, kindlegen, epubs) == Values(Filter(Truthy, Answers(convert, kindlegen, epubs)))
    decreases |epubs|
  {
    var answers := Answers(convert, kindlegen, epubs);
    forall k | 0 <= k < |Filter(Truthy, answers)|
      ensures Filter(Truthy, answers)[k].Some?
    {
      FilterMembership(Truthy, answers, Filter(Truthy, answers)[k]);
    }
    if epubs != [] {
      var n := |epubs| - 1;
      var init := epubs[..n];
      KeptMobisAreTruthyAnswers(convert, kindlegen, init);
      assert answers == Answers(convert, kindlegen, init) + [answers[n]];
      FilterAppend(Truthy, Answers(convert, kindlegen, init), [answers[n]]);
    }
  }

  /** At most one mobi file per e-book, none of them empty, and one for
      every e-book exactly when every conversion succeeds. */
  lemma {:induction false} KeptMobisBounds(convert: Converter, kindlegen: string, epubs: seq<string>)
    ensures |KeptMobis(convert, kindlegen, epubs)| <= |epubs|
    ensures forall k :: 0 <= k < |KeptMobis(convert, kindlegen, epubs)| ==> KeptMobis(convert, kindlegen, epubs)[k] != ""
    ensures (forall k :: 0 <= k < |epubs| ==> Truthy(convert(kindlegen, epubs[k]))) <==>
      |KeptMobis(convert, kindlegen, epubs)| == |epubs|
    decreases |epubs|
  {
    if epubs != [] {
      var n := |epubs| - 1;
      var init := epubs[..n];
      KeptMobisBounds(convert, kindlegen, init);
      if forall k :: 0 <= k < |epubs| ==> Truthy(convert(kindlegen, epubs[k])) {
        assert forall k :: 0 <= k < |init| ==> Truthy(convert(kindlegen, init[k])) by {
          forall k | 0 <= k < |init| ensures Truthy(convert(kindlegen, init[k])) {
            assert init[k] == epubs[k];
          }
        }
      } else {
        var k :| 0 <= k < |epubs| && !Truthy(convert(kindlegen, epubs[k]));
        if k < n {
          assert init[k] == epubs[k];
        }
      }
    }
  }
}
