# documentation-library, modelled in Dafny

This project models the core of the documentation library tool, which keeps
documentation files consistent across three places:

- a project's source tree;
- a shared library of files named by content-derived keys;
- a per-ticket workspace.

The model covers these parts of the tool:

- **Meta documents** (`Meta`). A meta document is the per-product registry from a
  record's signature (`file_name + sep + lib_suffix`) to its record. Registering
  never overwrites. Reading registers every stored record again, and the items
  come back once each, in insertion order.
- **Directives** (`Directives`):
  - the line grammar, including its quirks: at least three tokens are needed, and
    a lone prefix token raises `IndexError`;
  - the per-document index from `name_space + sep + attribute` to a set of values;
  - the auto agent's target paths.
- **Operations** (`Operations`):
  - collecting documents by extension;
  - the library name and meta record `add` derives from a path, the library copies
    and the meta document it writes;
  - the workspace paths `checkout` copies to;
  - the status bookkeeping of add, check-out and merge;
  - merge dispatch, with the first exception out of a document's directives ending
    the merge;
  - duplicate-sentence detection and its display filter.
- **Text** (`Text`):
  - grouping a file into paragraphs at blank lines;
  - splitting a paragraph into sentences;
  - the simplified form and signature of a sentence;
  - the ordered sentence map of a paragraph;
  - the `Paragraphs` collection with its lookup, find and compare.
- **Name normalisers** (`Constants`, `Connectors`, `Ui`):
  - the separator normalisation of `NameFactory` and of the ticket summary;
  - the branch name;
  - CLI option names;
  - the layout of terminal messages.

Python's string built-ins are stated once, in `PyStr`: `strip`, `split`,
`re.split` on a one-character class, `partition`, `rpartition`, `join`,
slicing, `str.title` and `os.path.join`. The modules `Optional`, `Signals`,
`Hashing` and `FileSystem` hold the shared vocabulary:

- `None`-or-value results;
- the status markers;
- SHA-1, as a parameter returning 40 hexadecimal digits;
- the disk, read through a directory walk and a file-lines function;
- file copies, kept as a log.

State that the Python code updates in place becomes a Dafny `class`:

- `MetaDocument`, whose contents are a registry;
- `Operation`, with its status list, its collection, and logs of copies and meta writes;
- `DetectOperation`, with its tally of statistics;
- `TicketInfo`;
- `Paragraphs` and `TextFile`.

Their loops are methods proved against specification functions, for example:

- `_inspect` against `IndexOf`;
- the check-out loop against `CheckOutCopies`;
- the merge loop against `MergeDone`;
- the duplicate collection against `Tallied`;
- `display` against `Rows`.

Where the model follows the code rather than the tool's description:

- The argument name of `CLIArgumentFactory.make` is the attribute name unchanged
  (src/ui.py:33). Only the option is normalised.
- `read_lines` never adds the run of lines after the last blank line (src/text.py:31-36).
  The model keeps this: see `Text.GroupsKeepLinesBeforeLastBlank`.
- Parsed directive lines are lower-cased before they are split, but the default
  name space is `dL`. A key is lower case apart from the name-space separator
  itself, and its second character is never the `L` of `dL`, whatever the
  separators. So the product and version keys that `MergeOperation` compares
  against are never in an index (`Operations.DefaultKeysNeverIndexed`), and only
  the auto agent is dispatched.

## Model

| member | source | states |
|---|---|---|
| Meta.MakeSignature | src/meta.py:57-58 | the signature is the file name, the separator and the library suffix, in that order |
| Meta.Registry.Register | src/meta.py:61-83 | the keys grow by exactly the record's signature; every existing entry is unchanged; an absent signature maps to the new record; the registry invariant and its keying by the separator are kept |
| Meta.RegisterIdempotent | src/meta.py:75-81 | registering the same record twice gives the same registry as registering it once |
| Meta.RegisterNeverOverwrites | src/meta.py:75-81 | registering a record whose signature is present leaves the registry unchanged, even when the records differ |
| Meta.RegisterAllKeys | src/meta.py:41-49 | after registering a sequence of records, a key is present iff it was present before or is the signature of one of the records |
| Meta.RegisterAllKeepsOld | src/meta.py:41-49 | entries present before a run of registrations keep their records |
| Meta.RegisterAllFirstWins | src/meta.py:41-49 | a key added by a run of registrations holds the first record with that signature |
| Meta.RegisterAllValid | src/meta.py:41-49 | a run of registrations keeps the insertion order duplicate-free, equal to the key set, and every key the signature of its record |
| Meta.ItemsExactlyOnce | src/meta.py:96-101 | the items list every stored (signature, record) pair, each exactly once, and nothing else |
| Meta.MetaDocument.constructor | src/meta.py:19-30 | the product code is stored lower-cased and stripped; the meta directory is the data directory joined with the meta directory name; the contents are empty |
| Meta.MetaDocument.DataFilePath | src/meta.py:37-39 | the data file is `meta_dir_path/product_code.data_file_suffix` |
| Meta.MetaDocument.Register | src/meta.py:61-83 | the contents become the registry after registering the record; the result is `None` on insertion and `RecordRegister.Failed` when the signature was present |
| Meta.MetaDocument.Read | src/meta.py:33-54 | every loaded record is registered again under its recomputed signature, in order, ignoring the stored key; the result is Ok exactly when the contents are then non-empty |
| Meta.MetaDocument.GetContents | src/meta.py:96-101 | the items are the registry's (signature, record) pairs in insertion order |
| Meta.MetaDocument.Save | src/meta.py:86-93 | the contents are written to the data file path |
| Directives.Tokens | src/directives.py:17-18 | every token of a stripped and lower-cased line is a non-empty run of non-whitespace with no upper-case letter |
| Directives.ParseLineCases | src/directives.py:43-67 | a line raises `IndexError` iff its only token is the prefix; it parses iff the first token is the prefix, it has at least three tokens and both separators are non-empty |
| Directives.ParsedShape | src/directives.py:49-56 | a parsed directive has the rule's prefix; its value is the tokens after the second and is non-empty; its name space begins the second token and holds no name-space separator; its attribute holds no value separator; neither has an upper-case letter |
| Directives.ParsedNoUpper | src/directives.py:17-54 | the name space and attribute of a parsed directive have no upper-case letter |
| Directives.DocProperty | src/directives.py:71-73 | the key is the name space, the separator and the attribute |
| Directives.AddValue | src/directives.py:92-97 | adding a value to a key's set creates the set if missing, adds the value and leaves every other key alone |
| Directives.Inspect | src/directives.py:81-99 | the loop's result is the fold of the document's lines, `IndexOf` |
| Directives.IndexFailedPrefix | src/directives.py:81-99 | once a line raises, the remaining lines do not change the outcome |
| Directives.IndexRaises | src/directives.py:81-99 | indexing raises iff some line raises, and then with the exception of the first such line |
| Directives.IndexEntries | src/directives.py:81-99 | a value is in a key's set iff some line parses to a directive with that key whose space-joined value is that value |
| Directives.FoldValuesNonEmpty | src/directives.py:92-97 | every key of the index has a non-empty set of values |
| Directives.IndexKeysNoUpper | src/directives.py:81-99 | with a separator that has no upper-case letter, no key of an index has one |
| Directives.KeyWithUpperNeverIndexed | src/directives.py:81-99 | with a name-space separator that has no upper-case letter, a key containing an upper-case letter is never in an index |
| Directives.YieldedKeyNotDefault | src/directives.py:43-73 | with a name-space separator holding an upper-case letter, the key a parsed line yields is never a key of the `dL` name space |
| Directives.DefaultNameSpaceNeverIndexed | src/directives.py:81-99 | whatever the separators, no key of the default name space `dL` is ever in an index |
| Directives.TargetPathReplacesProduct | src/directives.py:119-121 | for `h + code + "/" + rest` with the code not occurring later, the target is `h + upper(v) + "/" + rest` |
| Directives.RunAuto | src/directives.py:114-132 | a copy is made iff it goes from the document to the target path of some value whose upper case differs from the project code; the number of copies is exactly the number of distinct values whose upper case differs from the project code, so never more than the values |
| Operations.Extension | src/operations.py:144 | the extension is a dot-free suffix of the file name, the whole name when there is no dot |
| Operations.FoundInIff | src/operations.py:143-145 | a path is found in a directory iff it is the directory joined with a listed file that passes the filter |
| Operations.CollectedFromWalked | src/operations.py:136-146 | a path is collected from a walk iff some walked directory holds a file that passes the filter and the path joins the two |
| Operations.CollectDir | src/operations.py:143-145 | the inner loop adds exactly the files of one directory whose extension is listed |
| Operations.Collect | src/operations.py:136-146 | `collect` returns exactly the walked files whose extension is listed, joined to their directory |
| Operations.MakeWorkspacePath | src/operations.py:123-133 | with plain names the path is `workspace/project/doc_source`, followed by `/target_dir` when a target directory is given, and is itself a plain path; a target directory with a leading slash replaces the whole path |
| Operations.LocalPathShape | src/operations.py:95 | the local path is the end of the path, and empty when the path does not pass through `/doc_source/` |
| Operations.SplitLocalPathShape | src/operations.py:96 | the file name holds no slash, and the directory, a slash and the file name give back the local path; without a slash the directory is empty |
| Operations.LibSuffixShape | src/operations.py:98-99 | the suffix is a prefix of the digest of `project_code/target_dir`, of the key length when that fits, made of hexadecimal digits |
| Operations.LibFileNameIsSignature | src/operations.py:101-107 | the library name of a path is the signature of the record registered for it |
| Operations.OpenMetaDocument | src/operations.py:88-92 | an operation's meta document starts empty and is keyed by the code separator |
| Operations.SaveCopies | src/operations.py:114-120 | `_save` makes one copy per library name, from its source path to the library directory |
| Operations.Operation.constructor | src/operations.py:34-42 | the status, collection and logs start empty; there is a workspace path exactly when there is a project code |
| Operations.Operation.CopyProject | src/operations.py:86-111 | every collected path's library name maps to a path of that name; the meta document written holds exactly one record per name, each that of a collected path; the collection is copied into the library; the status is unchanged |
| Operations.Operation.CopyCollected | src/operations.py:88-111 | the same, for an already collected set of paths |
| Operations.Operation.RegisterAll | src/operations.py:94-107 | the loop registers each path's record and maps its name to it, so registry keys and collection names agree |
| Operations.Operation.SaveCollection | src/operations.py:114-120 | the copies log grows by exactly the copies of `_save`; nothing else changes |
| Operations.Operation.Add | src/operations.py:153-159 | the status gains `Add.Ok` when the collection is non-empty and `Add.Failed` otherwise; the collection names one collected path per library name; exactly one meta document is written, holding one record per library name; the copies log grows by the library copies of `_save`; earlier log entries are kept |
| Operations.AddOkIffCollected | src/operations.py:156-159 | a fresh operation's collection is non-empty iff some document was collected |
| Operations.AddOperation | src/operations.py:150-159 | the status is the single entry `Add.Ok` iff the source directory holds a document with a listed extension; the single meta document written holds one record per library name of the collected documents, and the copies are exactly the library copies of the collection |
| Operations.LoadedItems | src/operations.py:166-172 | the items read back have distinct keys, each the signature of its record |
| Operations.LoadedItemsAreFirst | src/operations.py:166-172 | each item read back is the first record of the document with its signature |
| Operations.LoadedItemsCover | src/operations.py:166-172 | every record of the document has its signature among the items |
| Operations.CheckOutMarks | src/operations.py:183 | one `CheckOut.Ok` per item |
| Operations.Operation.CheckOutItems | src/operations.py:172-183 | the loop copies every item, in order, from the library file of its key to its place in the workspace, and adds one `CheckOut.Ok` per item |
| Operations.Operation.CheckOut | src/operations.py:166-183 | the same for the items of the meta document read from the data |
| Operations.CheckOutOperation | src/operations.py:163-183 | a fresh check-out copies every loaded item and reports one `CheckOut.Ok` each |
| Operations.CheckOutRestoresPlace | src/operations.py:95-107 | a document added from `prefix/doc_source/local` is checked out to `workspace/project/doc_source/local` |
| Operations.DefaultKeysNeverIndexed | src/operations.py:223-231 | whatever the separators, the product and version keys, spelt with the `L` of `dL`, are never keys of a directive index |
| Operations.MergeMarks | src/operations.py:245-262 | the merge status entries are all `Merge.Failed`, at most one per item, and none iff every item is a document in the default format |
| Operations.Operation.MergeItem | src/operations.py:245-262 | a document's directives are indexed, and it raises exactly when that indexing raises, then copying nothing; a non-document adds `Merge.Failed`; the copies made are exactly the auto agent's |
| Operations.Operation.MergeItems | src/operations.py:241-262 | the loop stops at the first item that raises, or at the end; it has added the status entries and auto copies of the items before it |
| Operations.Operation.Merge | src/operations.py:233-264 | without a workspace path, a single `Merge.Failed` and no copies; otherwise the merge of the meta document's items |
| Operations.MergeOperation | src/operations.py:216-264 | a fresh merge: `[Merge.Failed]` without a project code, otherwise the outcome of merging the loaded items |
| Operations.Tally.Add | src/operations.py:299-302 | the key's list gains the statistic at its end; other keys' lists are unchanged; the tally invariant is kept when the statistic carries the key |
| Operations.AddAllUnder | src/operations.py:297-302 | after adding a run of pairs, each key's list is its old list followed by the pairs' statistics for that key, in order |
| Operations.AddAllValid | src/operations.py:297-302 | adding pairs keyed by their sentence signatures keeps every list under its own key |
| Operations.ParagraphEntries | src/operations.py:298-302 | one pair per sentence of the paragraph, keyed by its signature |
| Operations.RowsOfEmpty | src/operations.py:306 | an empty tally displays nothing |
| Operations.ShownIff | src/operations.py:309-312 | a row is shown from a list iff some statistic in it has visible text starting with a letter or digit and that row |
| Operations.RowsIff | src/operations.py:307-312 | a row is displayed iff it comes from such a statistic in the list of a key with more than one statistic |
| Operations.DisplayedIff | src/operations.py:305-312 | the same, over the keys of a valid tally |
| Operations.DisplayedAreDuplicates | src/operations.py:294-312 | every displayed row comes from a sentence whose key was collected more than once |
| Operations.DetectOperation.constructor | src/operations.py:277-283 | the target and context are stored and the tally is empty |
| Operations.DetectOperation.Inspect | src/operations.py:285-291 | every collected path in the default format is searched exactly once, in some order, and the tally is that of those files |
| Operations.DetectOperation.InspectAll | src/operations.py:289-291 | the loop over collected paths searches exactly the documents in the default format |
| Operations.DetectOperation.CollectDuplicates | src/operations.py:294-302 | in paragraph context every sentence of every paragraph of the file is appended with the file's path to its key's list; otherwise nothing |
| Operations.DetectOperation.CollectParagraphs | src/operations.py:297-302 | the loop over paragraphs appends their pairs in order |
| Operations.DetectOperation.CollectParagraph | src/operations.py:298-302 | the loop over one paragraph's sentences appends its pairs in order |
| Operations.DetectOperation.Display | src/operations.py:305-311 | the rows are those of the specification `Rows`: keys in insertion order, lists with more than one statistic, filtered texts cut at 32 characters |
| Operations.ShowList | src/operations.py:309-311 | the inner loop yields the filtered rows of one list, in order |
| Text.Simplify | src/text.py:39-48 | the pair is the lower-cased line with trailing whitespace and every separator character removed, and the line without trailing whitespace; on a line without a backslash it equals the as-written definition; its properties are the three lemmas below |
| Text.SimplifyIgnoresCase | src/text.py:41-48 | lines equal up to case simplify alike |
| Text.LowerSimplified | src/text.py:44-48 | lower-casing before or after dropping separators gives the same simplified form |
| Text.SimplifyIgnoresSeparator | src/text.py:41-48 | inserting a whitespace or punctuation character before the last visible character does not change the simplified form |
| Text.SentencesAreUnbroken | src/text.py:50-66 | every sentence is non-empty and contains no end mark followed by a separator |
| Text.SplitAtTokenJoin | src/text.py:50-66 | sentences without end marks, joined by an end mark and a separator, split back into themselves |
| Text.MakeFragment | src/text.py:70-74 | the fragment holds the line without trailing whitespace, its simplified form and a 40-digit hexadecimal signature; on a line without a backslash the simplified form is the as-written one |
| Text.FragmentSignatureIgnoresCase | src/text.py:70-74 | lines equal up to case get the same signature |
| Text.PutAllValid | src/text.py:85-87 | filling the ordered map keeps its keys distinct, equal to the map's keys, each under its own signature |
| Text.PutAllContents | src/text.py:85-87 | a key is present iff some sentence has it, and holds the last sentence with it |
| Text.PutAllOrder | src/text.py:85-87 | keys stay in the order of the first sentence with each |
| Text.NewParagraph | src/text.py:79-87 | a paragraph is the ordered map of the sentences of its space-joined lines |
| Text.PutFragments | src/text.py:86-87 | the loop fills the ordered map from the fragments in order |
| Text.Paragraph.Len | src/text.py:90-91 | the length is the number of distinct signatures |
| Text.Paragraph.Get | src/text.py:94-102 | the sentence under a present signature, `None` for an absent one |
| Text.Paragraph.Find | src/text.py:105-108 | the sentence map iff the signature is present, `None` otherwise |
| Text.Paragraph.Signature | src/text.py:111-114 | the digest of the concatenated keys is 40 hexadecimal digits |
| Text.Paragraphs.constructor | src/text.py:119-120 | a new collection is empty |
| Text.Paragraphs.Add | src/text.py:123-124 | the paragraph is appended |
| Text.Paragraphs.GetItem | src/text.py:131-134 | the first paragraph with the same signature, if any |
| Text.Paragraphs.Find | src/text.py:137-149 | in paragraph context nothing; in sentence context the sentence from every paragraph holding the key, in order |
| Text.OccurrencesKeyed | src/text.py:137-149 | each sentence found carries the key, one per paragraph holding it |
| Text.Paragraphs.Compare | src/text.py:152-163 | each received signature occurs in the result as often as in the received list if it is among the own signatures, and not at all otherwise; the result keeps the received order, a subsequence of the received list |
| Text.GroupsAreRuns | src/text.py:28-36 | every paragraph's lines form a non-empty run of non-blank lines |
| Text.GroupsAreMaximalRuns | src/text.py:28-36 | every paragraph is a whole run of non-blank lines: it starts at the top of the file or after a blank line and ends at a blank line |
| Text.GroupsKeepLinesBeforeLastBlank | src/text.py:28-36 | the paragraphs' lines are exactly the non-blank lines before the last blank line; without a blank line there are none |
| Text.TextFile.constructor | src/text.py:21-25 | a text file's paragraphs are those of its lines |
| Text.TextFile.ReadLines | src/text.py:28-36 | the loop appends the paragraphs of the lines, in order |
| Connectors.NormalizeTicketText | src/connectors.py:116-125 | the normalised text has no lower-case letter; on text without a backslash it equals the as-written normaliser |
| Connectors.TicketTextShape | src/connectors.py:116-125 | with a one-character separator from the class, the normalised text has no doubled, leading or trailing separator, and apart from separators it is the text's other characters, in order, upper-cased |
| Connectors.TicketInfo.constructor | src/connectors.py:84-90 | the ticket id is stored upper-cased; blank text leaves both texts empty, other text is stored with its normalised form, which is the as-written one for text without a backslash; there is no branch name |
| Connectors.TicketInfo.SetText | src/connectors.py:141-145 | text with a visible character replaces the text and renormalises, as written when the text has no backslash; blank text changes nothing |
| Connectors.TicketInfo.UpdateSummary | src/connectors.py:93-101 | without a request the result is `Failed` and nothing changes; with one the stripped reply goes through the setter, normalised as written when it has no backslash, and the result is `Ok` |
| Connectors.TicketInfo.MakeBranchName | src/connectors.py:104-113 | the branch name is stored and returned, and is the ticket id, the normalised text and the product version joined by the separator |
| Connectors.BranchName | src/connectors.py:109-112 | the name is `ticket_id + sep + normalized_text + sep + version` |
| Connectors.ProductVersion | src/connectors.py:109 | the version is a separator-free suffix of the product id, the whole id when it has no separator |
| Connectors.BranchNameEndsWithVersion | src/connectors.py:104-113 | with a one-character separator, `rpartition` of the branch name gives back the product version |
| Constants.NormalizeShape | src/constants.py:103-113 | the result has no doubled separator; apart from separators it is the text's other characters in order; its only whitespace or punctuation is the separator |
| Constants.NormalizeCollapsesRuns | src/constants.py:103-113 | two consecutive separator characters normalise like one |
| Constants.NormalizeTrims | src/constants.py:103-113 | a leading or trailing separator character changes nothing |
| Constants.NormalizePlain | src/constants.py:103-113 | text without whitespace or punctuation comes back unchanged |
| Constants.NameFactory.Make | src/constants.py:116-123 | with a separator from the class, the name is collapsed and keeps the attribute's other characters; for an attribute without a backslash the name is the as-written normalisation |
| Constants.NormalizeWithoutBackslash | src/constants.py:103-113 | on text without a backslash the normalisation equals the as-written one |
| Constants.NameFactoryUsesFirstChar | src/constants.py:99-100 | factories whose separator strings share a first character make the same names |
| Ui.NewArgumentFactory | src/ui.py:18-20 | the option separator is the first character of its string, the name factory that of the name separator |
| Ui.ArgumentFactory.Make | src/ui.py:23-33 | the name is the attribute name; the option is `--` and the attribute normalised with the option separator; for an attribute without a backslash that is the as-written normalisation |
| Ui.PlainAttributeOption | src/ui.py:23-33 | an attribute name without separators gives the option `--` followed by the name |
| Ui.NewMessage | src/ui.py:111-119 | the title is title-cased; the decoration is the first token character repeated text-width times; the legend is the text-width prefix of the legend |
| Ui.Message.Make | src/ui.py:122-132 | the message starts with a newline and ends with `: `, of the length of its layout with or without the legend |
| Ui.MessageLines | src/ui.py:128-131 | split at newlines the message is the empty line, the title, the decoration, the legend and the decoration again if present, and the prompt with `: ` |
| Ui.TitleKeepsNonLetters | src/ui.py:112 | title-casing changes only letters, and keeps which characters are letters |
| Ui.TitleIdempotent | src/ui.py:112 | title-casing twice is title-casing once |
| PyStr.StripEmptyIffBlank | src/connectors.py:143 | a string strips to nothing iff it is all whitespace |
| PyStr.RPartitionLast | src/connectors.py:109 | `rpartition` splits at the last occurrence of the separator, and gives the whole text as tail when it does not occur |
| PyStr.PartitionFirst | src/directives.py:50 | `partition` splits at the first occurrence of the separator, and gives the whole text as head when it does not occur |
| PyStr.WordsAroundSeparator | src/constants.py:111 | the non-empty pieces of a text around a separator character are those of each side |
| PyStr.WordsConcat | src/text.py:46 | joining the non-empty pieces with nothing drops exactly the separator characters |
| PyStr.WordsAgree | src/constants.py:111 | two separator classes that agree on every character of a text split it into the same pieces |
| PyStr.JoinWordsCollapsed | src/constants.py:113 | pieces joined by a separator character have no doubled, leading or trailing separator |
| PyStr.Slice | src/operations.py:312 | a slice `[:n]` is a prefix: of length `n`, or the whole string when shorter; a negative `n` drops `-n` characters from the end |
| PyStr.Repeat | src/ui.py:114 | repetition gives the character `n` times, nothing for `n <= 0` |

## Left out

- File input and output: `open`, `yaml.load`, `yaml.dump`, `os.walk`, `makedirs` and `shutil.copy`. The disk is a value with a directory walk and the lines of each file. A YAML document is the sequence of its (key, record) entries. Copies and meta-document writes are appended to logs.
- Failures of that input and output are not modelled: a missing file, a YAML document that is empty or lacks a field, or a copy into a missing directory.
- SHA-1 is a parameter returning 40 hexadecimal digits; its digest and the text encoding are not specified.
- `GitConnector` and `JIRAConnector`, which wrap foreign libraries, and `request_jira_ticket`, which prompts on the terminal.
- The steps of `CheckOutOperation` after the copies depend on those and are not modelled: the ticket request, the branch creation and the second `CheckOut.Ok` (src/operations.py:185-192).
- `CheckInOperation` only has git and JIRA effects.
- The reply read from the terminal by `update_summary` is a parameter.
- The `CLI` class (argparse), the configuration loading, the message texts and the entry script.
- Debug printing.
- The product and version agents only print. `Operations.DefaultKeysNeverIndexed` shows that their keys never match, so merge dispatch models the auto agent only.
- Operations.DetectOperation.Display: the source pads each row with an undefined `padding`, which raises `NameError` at the first row. The model yields the rows without padding.
- `DetectOperation` is a separate class: it carries the settings it reads, not the status and collection it inherits in Python.
- Python set iteration order is left open. `collect`'s paths, `_save`'s keys and `inspect`'s documents are taken in any order. For `inspect` the order taken is returned as a ghost value.
- Case mapping, `isalnum` and `str.title` cover ASCII letters only. Whitespace is the set `str.isspace` accepts.
- `split_at_token` builds its alternatives from sets, so their order varies between runs. A sentence end followed by a final newline matches both `[.]\n` and `[.]$`, and the model takes the two-character match.
- Connectors.TicketInfo.MakeBranchName: requires a non-empty separator, where Python's `rpartition` would raise `ValueError`.
- Directives.RunAuto: requires a non-empty project code, as merge guarantees; Python's `rpartition` would raise `ValueError` on an empty one.
- Ui.NewArgumentFactory: requires non-empty separator strings, where Python would raise `IndexError`. Ui.NewMessage likewise requires a non-empty decoration token.
- Ui.NewMessage: the text width is an integer; converting a string with `int` is not modelled.
- Text.Simplify: uses the intended separator class, in which the backslash is a separator (see Findings); it equals the as-written definition on every line without a backslash.
- Text.MakeFragment: its simplified form uses the intended separator class; it equals the as-written one on every line without a backslash.
- Constants.NameFactory.Make: normalises with the intended separator class; the name equals the as-written one for every attribute without a backslash.
- Ui.ArgumentFactory.Make: normalises the option with the intended separator class; the option equals the as-written one for every attribute without a backslash.
- Connectors.NormalizeTicketText: uses the intended separator class; it equals the as-written normaliser on every text without a backslash.
- Connectors.TicketInfo.constructor: stores the normalised text of the intended separator class, which agrees with the source on text without a backslash.
- Connectors.TicketInfo.SetText: stores the normalised text of the intended separator class, which agrees with the source on text without a backslash.
- Connectors.TicketInfo.UpdateSummary: stores the normalised text of the intended separator class, which agrees with the source on replies without a backslash.
- src/signals.py defines neither `ContextMark` nor `TargetMark`, which src/text.py:8 and src/operations.py:11-13 import; as written those imports fail with `ImportError`. The model supplies the two marker types (`Signals.ContextMark`, `Signals.TargetMark`) the code evidently intends.

## Findings

| source | as written | input that shows it | evidently intended | confidence | as-written member | corrected member |
|---|---|---|---|---|---|---|
| src/constants.py:108 | the class built from `string.whitespace` and `string.punctuation` contains `\]`, which escapes the bracket, so the backslash is not a separator | normalising `a\b` with `_` gives `a\b` | every punctuation character separates, giving `a_b` | not executed; high | Constants.BackslashKeptAsWritten | Constants.NormalizeShape |
| src/text.py:45 | the same class in `simplify` keeps backslashes | `a\b` simplifies to `a\b`, not to `ab` like `a b` | punctuation is not accounted for, so `a\b` simplifies to `ab` | not executed; high | Text.SimplifyBackslashAsWritten | Text.SimplifyIgnoresSeparator |
| src/connectors.py:121 | the same class in the ticket-text normaliser keeps backslashes | the summary `a\b` with `_` normalises to `A\B` | `A_B` | not executed; high | Connectors.TicketTextBackslashAsWritten | Connectors.TicketTextShape |
