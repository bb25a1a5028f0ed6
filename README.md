# Binding pipeline of lightnovel-crawler, modelled in Dafny

`lightnovel_crawler/app/bind_books.py` turns the crawled chapters of a novel
into e-books. It runs five steps:

1. **make_data** groups the chapters into a dict. With packing by volume there
   is one key `'Volume <id>'` per volume, holding that volume's chapters with a
   non-empty body. Without packing there is one key `''` holding every chapter.
2. **make_texts** writes one `.txt` file per chapter, named with the
   zero-padded id and placed in `<output>/web/<group>`. The text is the
   chapter markup with paragraphs split, the markup stripped, and every run of
   CR/LF characters turned into one blank line.
3. **make_htmls** writes one web page per chapter into the same directories.
   Each page is linked to the previous and next chapter of its own group.
4. **make_epubs** builds one e-book per group that has chapters.
5. **make_mobis** finds kindlegen. If it is missing, it asks the user whether
   to fetch it, downloads it and looks again. It then converts every e-book and
   keeps the conversions that produced a file.

The model describes what each step does as a log of effects, a sequence of
`Books.Effect` values:

- directory creations and file writes;
- calls into the e-book builder, the kindlegen lookup, the prompt, the
  download and the converter.

Each step is a method that follows the loops of the source. Its `ensures` ties
its result and its effect log to a specification function, and lemmas prove
the properties of those functions.

The collaborators whose code is not part of this model are parameters:

- the markup stripper (`strip`);
- the page renderer `bind_html_chapter` (`render`);
- the builder `bind_epub_book` (`build`);
- the converter `epub_to_mobi` (`convert`).

The two answers of `retrieve_kindlegen` and the answer to the prompt are plain
inputs. `lightnovel_crawler/utils/binding.py` and
`lightnovel_crawler/utils/kindlegen_download.py` are not part of this model.

Modules, leaf first:

- `Sequences`: the list comprehension as `Filter`, its membership,
  multiplicity and order lemmas, and the key order of a dict.
- `PyStr`: the Python builtins the source uses: `str(int)` and `'%d'`,
  `str.rjust`, `str.replace` and `os.path.join` (POSIX). It also defines
  Python's string `<`, which the source never calls; it serves only to state
  in what order the text file names sort.
- `Books`: chapters, volumes, groups and the effect log.
- `Grouping`: `make_data`.
- `Texts`: the text file name and the text normalisation.
- `Layout`: the directory-and-file layout shared by the text and web exports.
  It flattens the dict into "slots", one per chapter in loop order.
- `TextExport`: `make_texts`.
- `HtmlExport`: `make_htmls`.
- `Epubs`: `make_epubs`.
- `Mobis`: `make_mobis`.
- `Pipeline`: `bind_books`.

Behaviour of the code worth noting:

- Each CR/LF run is replaced by CR LF CR LF, including a leading or trailing
  run.
- An id of more than five digits is kept whole. For a negative id the minus
  sign counts as a character and the zeros go before it (`-3` gives
  `000-3.txt`).
- Chapters in a group keep input order, not ordinal order.
- An empty string from the converter is skipped like `None`, since the code
  tests truthiness.
- The epub step receives the whole dict and skips empty groups itself.

## Model

| member | source | states |
|---|---|---|
| `Grouping.MakeData` | lightnovel_crawler/app/bind_books.py:20-33 | the dict `make_data` builds; without packing it is exactly `{'': chapters}`; with packing its keys are the volume keys in first-occurrence order and every entry is a volume's key with that volume's filtered chapters |
| `Grouping.PutGet` | lightnovel_crawler/app/bind_books.py:24 | after `data[key] = value`, looking up `key` gives `value` and every other key gives what it gave before |
| `Grouping.PutNames` | lightnovel_crawler/app/bind_books.py:24 | after `data[key] = value`, an existing key keeps its position and a new key is appended at the end |
| `Grouping.VolumeNameInjective` | lightnovel_crawler/app/bind_books.py:24 | different volume ids give different `'Volume %d'` keys |
| `Grouping.GroupNamesInVolumeOrder` | lightnovel_crawler/app/bind_books.py:23-24 | the keys appear in the order their volumes first appear; a repeated volume id keeps its first position |
| `Grouping.GroupsComeFromVolumes` | lightnovel_crawler/app/bind_books.py:23-28 | every packed entry is the key and filtered chapter list of one of the volumes |
| `Grouping.EveryVolumeHasGroup` | lightnovel_crawler/app/bind_books.py:23-24 | every volume has an entry, even one with no chapters |
| `Grouping.PackedGroupContents` | lightnovel_crawler/app/bind_books.py:24-28 | the entry `'Volume n'` holds exactly the chapters of volume n with a non-empty body, with their input multiplicities, as a subsequence of the input |
| `Grouping.ChapterOnlyInOwnVolume` | lightnovel_crawler/app/bind_books.py:24-28 | a chapter in a packed entry comes from the input, has a non-empty body and sits under the key of its own volume |
| `Grouping.GroupNamesDistinct` | lightnovel_crawler/app/bind_books.py:21-31 | the keys of the result are pairwise distinct in both modes |
| `PyStr.ParseIntToString` | lightnovel_crawler/app/bind_books.py:43 | `str` of an int reads back as the same int |
| `PyStr.IntToStringInjective` | lightnovel_crawler/app/bind_books.py:43 | different ints have different decimal notations |
| `PyStr.RJust` | lightnovel_crawler/app/bind_books.py:43 | `rjust`: length is the larger of the width and the input length, the input is a suffix, the rest is fill |
| `PyStr.ReplaceAbsent` | lightnovel_crawler/app/bind_books.py:46 | `replace` leaves a string without the pattern unchanged |
| `PyStr.ReplaceLeftmost` | lightnovel_crawler/app/bind_books.py:46 | `replace` rewrites the leftmost occurrence and continues after it |
| `PyStr.PathJoinUnder` | lightnovel_crawler/app/bind_books.py:40-44 | joining a relative name keeps the directory as prefix and the name as suffix with at most one `/` between |
| `Texts.TextFileNameShape` | lightnovel_crawler/app/bind_books.py:43 | the text file name is the id left-padded with `0` to at least five characters, never truncated, then `.txt` |
| `Texts.TextFileNameOrder` | lightnovel_crawler/app/bind_books.py:43 | for ids 0..99999, equal names exactly for equal ids, and name order is numeric order |
| `Texts.TextFileNameExamples` | lightnovel_crawler/app/bind_books.py:43 | ids 7 and -3 give `00007.txt` and `000-3.txt` |
| `Texts.TextFileNameOrderPastFiveDigits` | lightnovel_crawler/app/bind_books.py:43 | past five digits the order breaks: the name of 100000 sorts before the name of 99999 |
| `Texts.TextFileNameLongId` | lightnovel_crawler/app/bind_books.py:43 | id 123456 gives `123456.txt`: a longer id is not truncated |
| `Texts.CollapseKeepsPlainText` | lightnovel_crawler/app/bind_books.py:49 | text without CR/LF is unchanged by the `re.sub` |
| `Texts.CollapseRun` | lightnovel_crawler/app/bind_books.py:49 | a non-empty run of CR/LF becomes exactly CR LF CR LF |
| `Texts.CollapseSplit` | lightnovel_crawler/app/bind_books.py:49 | the rewrite works run by run: around any other character the two sides are rewritten independently |
| `Texts.CollapseIdempotent` | lightnovel_crawler/app/bind_books.py:49 | rewriting a second time changes nothing |
| `Texts.CollapseKeepsOtherCharacters` | lightnovel_crawler/app/bind_books.py:49 | the characters other than CR/LF are kept, in order |
| `Texts.CollapseExample` | lightnovel_crawler/app/bind_books.py:49 | `"a\n\r\nb\n"` becomes `"a\r\n\r\nb\r\n\r\n"` |
| `Texts.TextContentNormalised` | lightnovel_crawler/app/bind_books.py:46-49 | the text written for a chapter is already in normal form |
| `Layout.SlotAt` | lightnovel_crawler/app/bind_books.py:39-44 | the flattened loop order: slot k is chapter `index` of group `group`, and k is that chapter's group offset plus its index |
| `Layout.SlotAtOffset` | lightnovel_crawler/app/bind_books.py:62-66 | conversely, chapter i of group g is the slot right after the chapters of the earlier groups |
| `Layout.ExportWrites` | lightnovel_crawler/app/bind_books.py:39-51 | an export writes exactly one file per chapter, groups in dict order and chapters in list order |
| `Layout.ExportDirs` | lightnovel_crawler/app/bind_books.py:40-41 | an export creates exactly one directory per group, in dict order, even for an empty group |
| `Layout.ExportPaths` | lightnovel_crawler/app/bind_books.py:44-51 | the recorded paths are the written paths, one per chapter, in slot order |
| `Layout.DirectoryBeforeWrite` | lightnovel_crawler/app/bind_books.py:40-45 | every file is written after its directory was created |
| `TextExport.MakeTexts` | lightnovel_crawler/app/bind_books.py:37-56 | the effects of `make_texts` are the text export of the dict; the returned list is the written paths, one per chapter, each the padded name joined to `<out>/web/<group>` |
| `TextExport.TextExportPaths` | lightnovel_crawler/app/bind_books.py:43-51 | the recorded text paths, one per chapter in slot order |
| `TextExport.TextFileNameRelative` | lightnovel_crawler/app/bind_books.py:43-44 | a text file name never starts with `/`, so the join does not escape the group directory |
| `TextExport.TextPathUnderGroup` | lightnovel_crawler/app/bind_books.py:40-44 | each text path starts with `<out>/web/<group>` and ends with the chapter's file name |
| `TextExport.TextWritesContent` | lightnovel_crawler/app/bind_books.py:45-50 | the k-th file written holds the normalised text of the k-th chapter, already in normal form |
| `HtmlExport.MakeHtmls` | lightnovel_crawler/app/bind_books.py:60-79 | the effects of `make_htmls` are the web export of the dict; the returned list is the written paths, one per chapter, each the renderer's name joined to the group directory |
| `HtmlExport.HtmlFileAt` | lightnovel_crawler/app/bind_books.py:66-69 | the neighbours computed from the index are those of the chapter's slot |
| `HtmlExport.HtmlExportPaths` | lightnovel_crawler/app/bind_books.py:69-75 | the recorded web paths, one per chapter in slot order |
| `HtmlExport.PrevWithinGroup` | lightnovel_crawler/app/bind_books.py:65-67 | a previous chapter is passed exactly when the index is positive, and it is the preceding slot of the same group; the first chapter of a group gets none |
| `HtmlExport.NextWithinGroup` | lightnovel_crawler/app/bind_books.py:65-68 | a next chapter is passed exactly when one follows in the group, and it is the following slot; the last chapter of a group gets none |
| `HtmlExport.SlotBefore` | lightnovel_crawler/app/bind_books.py:65-67 | a chapter that is not first in its group is preceded, among all slots, by the previous chapter of the same group |
| `HtmlExport.SlotAfter` | lightnovel_crawler/app/bind_books.py:65-68 | a chapter that is not last in its group is followed, among all slots, by the next chapter of the same group |
| `HtmlExport.FirstOfGroupAfterEarlierGroup` | lightnovel_crawler/app/bind_books.py:62-67 | the slot before the first chapter of a group belongs to an earlier group |
| `HtmlExport.LastOfGroupThenLaterGroup` | lightnovel_crawler/app/bind_books.py:62-68 | the slot after the last chapter of a group belongs to a later group |
| `HtmlExport.HtmlWrites` | lightnovel_crawler/app/bind_books.py:69-73 | the k-th file written is the renderer's markup, verbatim, for the k-th chapter and its neighbours |
| `Epubs.MakeEpubs` | lightnovel_crawler/app/bind_books.py:82-93 | one builder call per non-empty group, in dict order, and the returned list is the builder's answers in that order; no call gets an empty list |
| `Epubs.NonEmptyGroupsExact` | lightnovel_crawler/app/bind_books.py:84-85 | the bound groups are exactly the non-empty ones, with their multiplicities, as a subsequence of the dict |
| `Epubs.NonEmptyNamesDistinct` | lightnovel_crawler/app/bind_books.py:84-90 | the bound groups have distinct keys when the dict does |
| `Epubs.BuildOncePerGroup` | lightnovel_crawler/app/bind_books.py:84-90 | each non-empty group is bound, no key is bound twice, an empty group is never bound |
| `Mobis.MakeMobis` | lightnovel_crawler/app/bind_books.py:97-127 | the result and effects of `make_mobis` for the given lookup answers, prompt answer and converter |
| `Mobis.MobiExits` | lightnovel_crawler/app/bind_books.py:98-118 | the four paths: found at once (no prompt, no download), declined (`None` after the prompt), still missing (`None` after download and second lookup), found after download |
| `Mobis.MobiCallBounds` | lightnovel_crawler/app/bind_books.py:98-113 | at most two lookups, one prompt and one download, and a download only after a missing first lookup and a yes |
| `Mobis.ConvertCallsOnly` | lightnovel_crawler/app/bind_books.py:121-122 | the conversion loop makes no lookup, prompt or download |
| `Mobis.ConvertsWithFoundKindlegen` | lightnovel_crawler/app/bind_books.py:112-122 | every conversion uses the kindlegen that was found, and it is truthy |
| `Mobis.KeptMobisAreTruthyAnswers` | lightnovel_crawler/app/bind_books.py:120-127 | the kept files are exactly the truthy converter answers, unwrapped, in e-book order |
| `Mobis.KeptMobisBounds` | lightnovel_crawler/app/bind_books.py:120-127 | at most one file per e-book, none empty, and one for every e-book exactly when every conversion succeeds |
| `Pipeline.BindBooks` | lightnovel_crawler/app/bind_books.py:131-137 | `bind_books` runs the text export, the web export, the e-books and the conversion, on one grouped dict, in that order |
| `Pipeline.StagesInOrder` | lightnovel_crawler/app/bind_books.py:131-137 | no export effect after an e-book was bound and no e-book bound after the kindlegen stage began |
| `Pipeline.StagesShareData` | lightnovel_crawler/app/bind_books.py:132-136 | after both exports come exactly the builder calls for the non-empty groups, and then the conversion of exactly what the builder answered |
| `Pipeline.ExportLength` | lightnovel_crawler/app/bind_books.py:39-44 | an export has one directory creation per group and one write per chapter |

## Left out

- Markup stripping (BeautifulSoup's `stripped_strings` joined with two LFs) is
  the parameter `strip`, so what it extracts is not modelled.
- `bind_html_chapter`, `bind_epub_book`, `epub_to_mobi`, `retrieve_kindlegen`
  and `download_kindlegen` are parameters or inputs. Their internals and their
  own files are not modelled.
- The converter is a pure function, so two calls on the same e-book answer
  alike. A real converter may not.
- The PyInquirer prompt is a boolean answer. Its message and its default of
  yes are not modelled, and neither is a cancelled prompt; the code would
  raise `KeyError` on `answer['fetch']`.
- Logging is left out. The reported counts are the lengths of the returned
  lists, which `MakeTexts` and `MakeHtmls` state.
- The file system is an effect log. File encoding, failing writes, overwriting
  an existing file and the `exist_ok` idempotence of `os.makedirs` are not
  modelled.
- `os.path.join` is modelled as POSIX `posixpath.join`; Windows separators are
  not.
- `ThreadPoolExecutor` is imported but never used, so there is nothing to
  model.
- Chapter and volume ids are unbounded integers, as in Python.
- `bind_books` returns nothing. `Pipeline.BindBooks` returns the effect log
  instead.
- `Texts.TextFileNameOrder`: distinctness and numeric sort order are proved
  only for ids 0..99999. Above 99999 the names no longer sort in numeric
  order: `100000.txt` sorts before `99999.txt`, as
  `Texts.TextFileNameOrderPastFiveDigits` shows.
- The paragraph-split rewrite `SplitParagraphs` is stated through the general
  `str.replace` lemmas, with no worked example.
- A chapter is modelled by its `id`, `volume` and `body` only. The renderer and
  the builder receive the whole chapter dict, so fields such as the title are
  not modelled, and two chapters that differ only in such fields are the same
  value here.
