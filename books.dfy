/** The records the binding pipeline reads and the effects it has on the
    world: file-system operations and calls into the collaborators whose
    code is not part of this model. */
module Books {

  datatype Option<+T> = None | Some(value: T)

  /** A chapter as the crawler delivers it: its ordinal, the id of the
      volume it belongs to (if any) and its body markup. */
  datatype Chapter = Chapter(id: int, volume: Option<int>, body: string)

  /** A volume of the crawled work; only its id matters to binding. */
  datatype Volume = Volume(id: int)

  /** One entry of the grouped-chapter dict: its key and its chapter list. */
  datatype Group = Group(name: string, chapters: seq<Chapter>)

  /** The keys of a grouped-chapter dict, in iteration order. */
  function Names(data: seq<Group>): seq<string>
  {
    seq(|data|, k requires 0 <= k < |data| => data[k].name)
  }

  /** Python truthiness of a value that is either `None` or a path string. */
  predicate Truthy(v: Option<string>)
  {
    v.Some? && v.value != ""
  }

  /** What the pipeline does to the outside world, in the order it does it. */
  datatype Effect =
    | MakeDirs(dir: string)                              // os.makedirs(dir, exist_ok=True)
    | WriteFile(path: string, content: string)           // open(path, 'w').write(content)
    | BindEpub(volume: string, chapters: seq<Chapter>)   // bind_epub_book(app, volume=, chapters=)
    | RetrieveKindlegen                                  // retrieve_kindlegen()
    | PromptFetch                                        // the yes/no prompt about fetching kindlegen
    | DownloadKindlegen                                  // download_kindlegen()
    | EpubToMobi(kindlegen: string, epub: string)        // epub_to_mobi(kindlegen, epub)

  /** The paths of the files written, in the order they were written. */
  function WrittenPaths(effects: seq<Effect>): seq<string>
    decreases |effects|
  {
    if effects == [] then []
    else
      var last := effects[|effects| - 1];
      WrittenPaths(effects[..|effects| - 1]) + (if last.WriteFile? then [last.path] else [])
  }

  lemma {:induction false} WrittenPathsAppend(a: seq<Effect>, b: seq<Effect>)
    ensures WrittenPaths(a + b) == WrittenPaths(a) + WrittenPaths(b)
    decreases |b|
  {
    if b == [] {
      assert a + b == a;
    } else {
      var b' := b[..|b| - 1];
      WrittenPathsAppend(a, b');
      assert (a + b)[..|a + b| - 1] == a + b';
    }
  }
}
