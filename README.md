# imgnet-tools, modelled in Dafny

imgnet-tools is a pair of scripts.

- `dl-imgnet.py` downloads the images of one or more image-net.org collections into `dest/classname`. Each saved image is recorded as a row in a CSV ledger, so a second run skips images it already has.
- `splitter.py` splits a class directory at random into a validation part and a training part. It copies the files into `dest/valid/classname` and `dest/train/classname`, and lists them in `valid.csv` and `train.csv`.

This project models the sequential logic of both scripts and proves what it promises. The network, the threads, the image libraries and the filesystem are abstracted as follows:

- File contents are strings, and a set of CSV files is a map from path to text.
- A fetch is an input value.
- `imghdr.what` and the md5 digest are function parameters.
- The choice `random.sample` makes is left open: the method may return any valid sample.

Modules, one per concern:

- `Str`: the Python `str` operations the scripts use. These are `in` as a substring test, `split(sep)`, `strip()`, `readlines()` and `%d`.
- `PosixPath`: `os.path.join` and `os.path.basename`.
- `Progress`: `logthat`, the progress line `"<index+1>/<total> <content>"`, and a parser that reads it back.
- `Ledger`: the ledger file as a class (`LedgerFile`) with two methods:
  - `is_in_db`: a scan of `readlines()` that stops at the first line holding the name;
  - `save_data`: writes the header if the file is absent, then appends one row.
- `Download`: `dl_image`.
  - The check order is a pure function, `Decide`: ledger hit, fetch exception, status, image type, md5 deny-list.
  - The method `DlImage` applies the verdict. It writes one file and one ledger row only for an accepted image.
- `Producer`: the `__main__` producer loops. The first loop counts lines and keeps each collection id once. The second turns every `name url` line into a work item numbered consecutively.
- `Splitter`:
  - `write_base`: adds the header, then appends the lines not already in the file as read before the loop;
  - the sample size `ceil(len * frac)`;
  - the in-place removal loop, proved to be a partition;
  - the two copy loops and the CSV-only mode of `splitdir`.

Every operation that changes state is a method. Its `ensures` ties the new state to a specification function of the old state. The properties are proved about those functions.

## Model

| member | source | states |
|---|---|---|
| Str.Contains | dl-imgnet.py:108 | Python's `needle in hay`; ContainsInSomeLine and LineContainedInFile relate it to the lines of a file, and Ledger.ListedIffContains to the ledger scan |
| Str.Split | dl-imgnet.py:298 | `split(' ')` gives at least one piece, and no piece contains the separator |
| Str.SplitJoin | dl-imgnet.py:298 | joining the pieces back with the separator gives the original line, so nothing is lost |
| Str.SplitNoSep | dl-imgnet.py:298 | a string without the separator is a single piece |
| Str.SplitAfterFirst | dl-imgnet.py:298 | a separator-free prefix followed by the separator becomes the first piece |
| Str.JoinSplit | dl-imgnet.py:284 | joining separator-free pieces with the separator and splitting again gives the same pieces, the converse of SplitJoin |
| Str.StripLeft | dl-imgnet.py:285 | the result is a suffix of the id, everything removed before it is whitespace, and it does not start with whitespace |
| Str.StripRight | dl-imgnet.py:285 | the result is a prefix of the id, everything removed after it is whitespace, and it does not end with whitespace |
| Str.Strip | dl-imgnet.py:285 | `strip()` gives the piece of the id that starts after its leading whitespace, only whitespace follows that piece, and neither end of the result is whitespace |
| Str.IsSpace | dl-imgnet.py:285 | the characters `str.strip()` removes: those for which Python's `str.isspace()` holds |
| Str.StripStripped | dl-imgnet.py:285 | an id that is already stripped is kept as it is |
| Str.StripFrom | dl-imgnet.py:285 | every character of a stripped id comes from the original id |
| Str.StripPadded | dl-imgnet.py:285 | `strip()` of a stripped string with whitespace on either side is that string |
| Str.ReadLines | dl-imgnet.py:101 | `readlines()`: the pieces of the file up to and including each '\n'; LineEnd, ContainsInSomeLine and LineContainedInFile state what they hold |
| Str.ReadLinesConcat | dl-imgnet.py:101 | put together, the lines of `readlines()` are the file |
| Str.ReadLinesLine | dl-imgnet.py:101 | each line of `readlines()` is nonempty, holds a '\n' only as its last character, and ends with one unless it is the last |
| Str.LineEnd | dl-imgnet.py:101 | the first line `readlines()` returns ends at the first '\n' (kept) or at the end of the file |
| Str.ContainsInSomeLine | dl-imgnet.py:101-110 | a name without '\n' that occurs in the file occurs in one of its lines |
| Str.LineContainedInFile | dl-imgnet.py:101-110 | whatever occurs in a line read from the file occurs in the file |
| Str.NatToString | dl-imgnet.py:69 | `%d` of a natural number is a nonempty string of decimal digits |
| Str.NatStringRoundTrip | dl-imgnet.py:69 | reading the `%d` digits back gives the number |
| Str.IntToStringDigits | dl-imgnet.py:69 | `'%d'` (Str.IntToString): a '-' exactly for a negative number, then decimal digits that read back as its magnitude |
| Str.IndexOf | dl-imgnet.py:69 | the first position of an element, or none when the sequence does not hold it; on characters a helper of the reader of the `%d/%d %s` line (Progress.ParseFields), not a call the script makes, and the search under `list.index` (Splitter.Index) |
| PosixPath.Join | dl-imgnet.py:181 | `os.path.join(a, b)` as posixpath defines it; JoinEndsWith and JoinRelative state what it gives |
| PosixPath.JoinEndsWith | dl-imgnet.py:181 | `os.path.join(a, b)` always ends with `b`, and starts with `a` unless `b` is absolute |
| PosixPath.JoinRelative | dl-imgnet.py:181 | a relative `b` is appended to `a` with exactly one '/' between them, or none when `a` is empty or ends with '/' |
| PosixPath.AfterLastSlash | splitter.py:71 | the position after the last '/', with no '/' beyond it |
| PosixPath.Basename | splitter.py:71 | `basename` holds no '/', is a suffix of the path that starts right after a '/' or at the start of the path, and is the whole path when there is no '/' |
| PosixPath.BasenameRelative | splitter.py:71 | a basename never starts with '/' |
| PosixPath.JoinBasename | splitter.py:71 | joining a basename onto a directory gives the directory, one '/' unless it is empty or ends with one, and the basename |
| Progress.LogLine | dl-imgnet.py:64-71 | without a total or an index the line is the bare content; the line always ends with the content |
| Progress.ParseFields | dl-imgnet.py:69 | a line of digits, '/', digits, ' ' and a message parses back into its two numbers and the message |
| Progress.ProgressRoundTrip | dl-imgnet.py:68-69 | for a non-negative index+1 and total, the progress line reads back as exactly `(index+1, total, content)`, whatever the content holds |
| Ledger.Row | dl-imgnet.py:88 | the row holds `imname` right after its opening quote and ends with '\n' |
| Ledger.AfterSave | dl-imgnet.py:77-92 | when the append fails the ledger is unchanged; otherwise the earlier text is kept as a prefix (the header `Sysnet Name,Base URL,Classname,Imagenet ID` for a new ledger), the row is at the end, and nothing else is added |
| Ledger.HeaderWrittenOnce | dl-imgnet.py:77-92 | two saves in a row leave the ledger one save of both rows would: the header is written at most once |
| Ledger.Lists | dl-imgnet.py:95-110 | what `is_in_db` answers; IsInDb is proved to compute it and ListedIffContains relates it to a substring search of the whole file |
| Ledger.LedgerFile.IsInDb | dl-imgnet.py:95-110 | the answer is true iff the file exists, can be read, and some line of it contains `imname`; it is false for an absent or unreadable file |
| Ledger.LedgerFile.SaveData | dl-imgnet.py:74-92 | the worker exits iff the file is absent and cannot be created, and then nothing changes; otherwise the ledger becomes `AfterSave`: the header (if absent) and one row when the append succeeds, and nothing when it fails, since that error is only printed |
| Ledger.ListedIffContains | dl-imgnet.py:101-110 | for a name without '\n', the line scan says yes iff the name occurs anywhere in the file |
| Ledger.PieceOfSavedNameListed | dl-imgnet.py:107-110 | after a row for `imname` is saved, every piece of `imname` counts as present, which is a false positive of the substring test |
| Ledger.SavedNameListed | dl-imgnet.py:86-110 | after `save_data(imname, ...)` appended its row, `is_in_db(imname)` is true |
| Download.Decide | dl-imgnet.py:136-179 | each verdict is characterized iff-wise in check order: ledger hit first, then exception, status other than 200, no image type, md5 in `BADIMG`; only an item passing all four is accepted, with the detected extension |
| Download.Target | dl-imgnet.py:181 | where an accepted image is written; TargetShape gives the exact path |
| Download.TargetShape | dl-imgnet.py:181 | for a relative name the path is `dest/classname` joined with `imname.ext`, with one '/' between them unless the directory is empty or ends with one; an absolute name is the whole path |
| Download.Message | dl-imgnet.py:137-186 | the text handed to `logthat` for each verdict; DlImage states that the log line is `logthat` of it |
| Download.DlImage | dl-imgnet.py:113-186 | the verdict is `Decide` on the ledger as it was; `dest/classname` is created; exactly one file is written and one row saved only when accepted; otherwise files and ledger are unchanged; the log line is `logthat` of the verdict's message, absent only when `save_data` exited |
| Download.RerunSkipsSaved | dl-imgnet.py:136-138 | once an image's row is saved, a rerun stops at the ledger check whatever the fetch would give |
| Producer.ParseEntry | dl-imgnet.py:298-302 | the `split(' ')` and `len(u) == 2` test; ParseEntryIff and BareLineSkipped characterize it |
| Producer.ParseEntryIff | dl-imgnet.py:298-302 | a line is kept, as `(name, url)` in that order, iff it is `name + " " + url` with no other space |
| Producer.BareLineSkipped | dl-imgnet.py:298-302 | a line without a space (a bare URL) is skipped |
| Producer.Ids | dl-imgnet.py:284-285 | one id per comma-separated piece, and id k is piece k with `strip()` applied; no id holds a comma, and none starts or ends with whitespace |
| Producer.IdsOfJoined | dl-imgnet.py:284-285 | comma-free, stripped ids joined with ',' are read back as the same ids, in order |
| Producer.IdsOfPadded | dl-imgnet.py:284-285 | ids padded with whitespace around the commas are read back as the bare ids, in order |
| Producer.SpacedIds | dl-imgnet.py:284-285 | `"n01, n02"` gives the ids `n01` and `n02` |
| Producer.Distinct | dl-imgnet.py:283-293 | the `results` keys hold exactly the requested ids, each once, in the order of their first assignment (the dict keeps insertion order, which decides the order of the queue) |
| Producer.LineCount | dl-imgnet.py:284-291 | the lines counted over the ids, an id counted each time it appears; Collect and DistinctCountBound state what it means |
| Producer.EntriesOf | dl-imgnet.py:297-302 | the accepted lines of one collection; EntriesOfBound and GoodThenBare state what they are |
| Producer.Entries | dl-imgnet.py:296-302 | the accepted lines of the kept collections, collection after collection; EntriesBound and OneKey state what they are |
| Producer.Items | dl-imgnet.py:295-304 | the queued tuples; ItemsAt gives each one |
| Producer.ItemsAt | dl-imgnet.py:295-304 | the k-th work item is the k-th accepted entry, with index k, the class name and the total |
| Producer.EntriesOfBound | dl-imgnet.py:297-302 | a collection gives at most one entry per line, each from an accepted line of it and tagged with its id |
| Producer.EntriesBound | dl-imgnet.py:295-302 | the entries of the kept collections number at most their lines |
| Producer.DistinctCountBound | dl-imgnet.py:282-293 | the lines of the kept collections are no more than the lines counted, since repeated ids are counted again |
| Producer.Collect | dl-imgnet.py:282-293 | `lines_count` is 1 plus all catalog lines of all requested ids; `results` keeps each id once in first-seen order |
| Producer.Enqueue | dl-imgnet.py:295-304 | the queue holds the accepted lines of the kept collections, in order, numbered from 0 by `lastidx` |
| Producer.Produce | dl-imgnet.py:282-304 | work item k has index k, carries the class name and the total, and `index + 1 < total` |
| Producer.IndexBelowTotal | dl-imgnet.py:282-304 | the number of queued items is below `1 +` all raw lines, skipped ones included |
| Producer.SingleId | dl-imgnet.py:284-285 | a single comma-free, already stripped id is the only key |
| Producer.GoodThenBare | dl-imgnet.py:297-302 | a `name url` line followed by a bare line gives one entry |
| Producer.OneKey | dl-imgnet.py:282-304 | with one key, the entries and the line count are those of its collection |
| Producer.OneWellFormedLine | dl-imgnet.py:282-304 | one collection listing a `name url` line and a bare line gives total 3 and one item with index 0 |
| Splitter.CsvPath | splitter.py:21 | the CSV file's path; CsvPathsDiffer states that the two usages give two files |
| Splitter.CsvLine | splitter.py:35 | the line of one file; AppendedListsAll and the other lemmas below state where it ends up |
| Splitter.Piece | splitter.py:35-38 | what the loop writes for one file; AppendedListsAll and AppendedEmptyIff state when it is written |
| Splitter.Appended | splitter.py:34-38 | what the loop writes for all files; WriteStepNew and WriteStepSeen give the per-file filter (a line is written iff it is not in the content read before the loop), on which the CSV-only mode relies; AppendedListsAll, AppendedEmptyIff, WriteBaseIdempotent and RepeatedInOneCall state what it holds |
| Splitter.AfterWrite | splitter.py:18-38 | the CSV files after one call; WriteBase is proved to produce it, and WriteKeepsEarlierText and WriteOneFile state what it holds |
| Splitter.WriteBase | splitter.py:18-43 | the CSV files become `AfterWrite`: header if absent, existing text kept, then the lines not in the text read before the loop |
| Splitter.WriteKeepsEarlierText | splitter.py:27-38 | `write_base` only appends: the file starts with its old text, or with the header `Filename,Classname` when it was absent, and every other CSV file is unchanged |
| Splitter.WriteOneFile | splitter.py:23-38 | a single file, wrapped in a list, gets its line appended exactly when the line is not yet in the file |
| Splitter.AppendedListsAll | splitter.py:31-38 | afterwards the line `f,classname` of every given file occurs in the file |
| Splitter.AppendedEmptyIff | splitter.py:31-38 | nothing is appended iff every line is already in the content read |
| Splitter.WriteBaseIdempotent | splitter.py:31-38 | a second call with the same files and class name appends nothing |
| Splitter.RepeatedInOneCall | splitter.py:34-38 | a new file given twice in one call is appended twice, because lines are not checked against each other |
| Splitter.AfterEachWrite | splitter.py:69-81 | one `write_base` call per copied file; EachWriteListsAll, EachWriteKeepsOthers and EachWriteSkipsRepeat state what it holds |
| Splitter.EachWriteListsAll | splitter.py:69-81 | one `write_base` call per target leaves every target's line in the CSV file |
| Splitter.EachWriteKeepsOthers | splitter.py:69-81 | calls for one CSV file leave every other CSV file unchanged |
| Splitter.EachWriteSkipsRepeat | splitter.py:69-81 | with one call per file, a repeated target adds nothing |
| Splitter.SampleSize | splitter.py:59-61 | `N` is the ceiling of `len * frac`: `N - 1 < len * frac <= N` |
| Splitter.SampleDrawable | splitter.py:59-63 | the sample can be drawn iff `-1 < len * frac <= len` |
| Splitter.Index | splitter.py:66 | `list.index` gives the first position of the element; built on Str.IndexOf |
| Splitter.RemoveFirst | splitter.py:66 | `del files[files.index(x)]` removes one occurrence of `x` |
| Splitter.RemoveEach | splitter.py:65-66 | the removal loop takes away exactly the sampled multiset |
| Splitter.Sample | splitter.py:63 | `random.sample` succeeds iff `0 <= N <= len` and then gives `N` of the files |
| Splitter.RemoveSampled | splitter.py:65-66 | the loop's result is `RemoveEach`, with `len - N` elements, and together with the sample it is the original multiset |
| Splitter.RemovedSize | splitter.py:65-66 | the remaining files plus the sample are the original multiset, and `len - N` files remain |
| Splitter.Without | splitter.py:65-66 | holds exactly the elements not dropped; WithoutConcat and WithoutOne state the order |
| Splitter.WithoutConcat | splitter.py:65-66 | filtering keeps the order: the filtered concatenation is the concatenation of the filtered parts |
| Splitter.WithoutOne | splitter.py:65-66 | a single element is kept when not dropped, and removed otherwise |
| Splitter.RemoveFirstWithout | splitter.py:66 | on distinct paths, removing the next sampled file from the remaining list is filtering it out |
| Splitter.RemoveEachDistinct | splitter.py:65-66 | on distinct paths the removal loop keeps the unsampled files in their original order |
| Splitter.SplitIsPartition | splitter.py:63-66 | with distinct paths: the remainder is the original list without the sample, in order, of `len - N` files, disjoint from the sample, and the two together hold exactly the original files |
| Splitter.Targets | splitter.py:69-81 | one CSV target per file |
| Splitter.Copies | splitter.py:69-81 | one `copyfile` per file |
| Splitter.CopyTarget | splitter.py:71 | `os.path.join(dir, os.path.basename(v))`; CopyTargetInDir gives the exact path |
| Splitter.CopiesAt | splitter.py:69-81 | file k is copied, in order, to `dir/basename(file k)` |
| Splitter.TargetsAt | splitter.py:71-81 | the path recorded in the CSV file for file k is the one it was copied to |
| Splitter.CopyEach | splitter.py:69-81 | the copies made are `Copies` and the CSV files are the result of one `write_base` per target |
| Splitter.CopyTargetInDir | splitter.py:71 | a copy is the directory, one '/' unless it is empty or ends with one, and the file's basename, so it lands directly inside the directory |
| Splitter.TrainDir | splitter.py:53 | `os.path.join(dest, 'train', classname)`; PartDirsDiffer states it differs from ValidDir |
| Splitter.ValidDir | splitter.py:54 | `os.path.join(dest, 'valid', classname)` |
| Splitter.PartDirsDiffer | splitter.py:53-54 | for a relative class name, `dest/train/classname` and `dest/valid/classname` differ |
| Splitter.CsvPathsDiffer | splitter.py:21 | `valid.csv` and `train.csv` are different files wherever `DEST` points |
| Splitter.SplitDir | splitter.py:46-89 | on success: `N` files sampled, the rest is `RemoveEach`, and the copies and CSV writes are those of the mode; on failure nothing is copied or written |
| Splitter.CsvOnlyListsBoth | splitter.py:83-86 | in CSV-only mode every sampled file is listed in `valid.csv` and every other file in `train.csv`, with the class name |
| Splitter.CopyModeListsBoth | splitter.py:68-81 | in copy mode every validation target is listed in `valid.csv` and every training target in `train.csv` |

## Left out

- Network: `requests.get` in `get_list`, in `dl_image` and in the words search. The catalog is a function from id to lines, and the image fetch is the `Fetch` input.
- Producer.Collect: the catalog is taken to give the same lines every time an id is read within one run. The source fetches the listing once per occurrence of the id, and the second loop reads the last response stored.
- The `bytes.decode()` of catalog lines. Lines are taken as already decoded strings.
- Threads, the queue and the lock: `init_queue`, `task_download`, `q.put`/`q.join`, the sentinel tuples, `locker`, and the race between `is_in_db` and `save_data`. All of these concern concurrency. The lock is also still held when `save_data` exits, which is not modelled.
- `imghdr.what` and `hashlib.md5` are foreign library calls. They are the function parameters `what` and `md5`; only membership in `BADIMG` is modelled.
- Download.DlImage: `os.makedirs` is recorded as the one directory `dest/classname` being added. Intermediate directories and failures of `makedirs` or of the image write are not modelled.
- Ledger.LedgerFile.SaveData: the messages printed on an I/O error are not modelled. The success of opening the file for append is the `writable` flag, and the success of opening it for reading is `readable`. One `writable` flag covers both opens for append (the header write and the row append), so a header written followed by a failing row append cannot happen in the model. `readable` is also kept as it was when `SaveData` creates the file.
- `print` output. `logthat` returns its line instead of printing it. The `"... written"` and `"Validation images"`/`"Train images"` prints of `splitter.py` are left out.
- readlines: universal-newline translation is not modelled. Lines are split at '\n' only.
- Splitter.WriteBase: the `try`/`except` around the CSV file is not modelled. Opening, reading and appending always succeed in the model.
- Splitter.SplitDir: `frac` is an exact fraction `num / den` with `den > 0`, not a float. Floating-point rounding of `len(files) * frac` before `math.ceil` is not modelled.
- Splitter.SplitDir: `glob.glob` is the `files` input. `os.makedirs` of the two part directories is not modelled, and `shutil.copyfile` is the returned list of `(source, target)` pairs.
- Splitter.Sample: any `N` of the files may be chosen, in any order. The random distribution of `random.sample` is not modelled.
- Splitter.write_base with a non-string `files` element: only strings, wrapped or in a list, are modelled.
- Default arguments: `dl_image`'s `classname='unknown'`, `dest='./'` and `nid=None`, and `splitdir`'s `frac=.2` and `dest='.'`. Every call in the scripts passes them, so the model takes them as plain parameters.
- `argparse`, the `__main__` setup of `splitter.py` (the `--all` loop and `os.unlink` of the CSV files), and the interactive search mode of `dl-imgnet.py`.
- Ledger.ListedIffContains: stated for names without '\n' only, and excluding an empty file with an empty name. An empty file has no lines, so the scan answers false for it even though `"" in ""` is true.
