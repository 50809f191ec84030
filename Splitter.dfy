/** splitter.py: a random train/validation split of one class directory, recorded in
    `train.csv` and `valid.csv`. */
module Splitter {
  import opened Str
  import opened PosixPath

  /** The line `write_base` puts in a CSV file it creates. */
  const CsvHeader: string := "Filename,Classname\n"

  /** The `files` argument of `write_base`: a list, or a single value that it wraps. */
  datatype FilesArg = One(file: string) | Many(files: seq<string>)

  /** `if type(files) is not list: files = [files]`. */
  function AsList(arg: FilesArg): seq<string>
  {
    match arg
    case One(f) => [f]
    case Many(fs) => fs
  }

  /** `'%s,%s' % (f, classname)`. */
  function CsvLine(f: string, classname: string): string
  {
    f + "," + classname
  }

  /** `os.path.join(DEST, usage + '.csv')`. */
  function CsvPath(dest: string, usage: string): string
  {
    Join(dest, usage + ".csv")
  }

  /** The CSV file's text once `write_base` has made sure it exists. */
  function Opened(text: map<string, string>, path: string): string
  {
    if path in text then text[path] else CsvHeader
  }

  /** What the loop of `write_base` appends: the line of each file, in order, unless that
      line already occurs in `content`, the text read before the loop. The lines appended
      by the loop itself are not consulted. */
  function Appended(files: seq<string>, classname: string, content: string): string
  {
    if files == [] then []
    else Appended(files[..|files| - 1], classname, content) + Piece(files[|files| - 1], classname, content)
  }

  /** What the loop of `write_base` appends for one file. */
  function Piece(f: string, classname: string, content: string): string
  {
    var line := CsvLine(f, classname);
    if Contains(content, line) then [] else line + "\n"
  }

  /** The effect on the CSV files of one `write_base` call with the list `files`. */
  function AfterWrite(text: map<string, string>, path: string, files: seq<string>,
                      classname: string): map<string, string>
  {
    text[path := Opened(text, path) + Appended(files, classname, Opened(text, path))]
  }

  /** The CSV files, by path, and their texts. */
  class CsvFiles {
    var text: map<string, string>

    constructor (text: map<string, string>)
      ensures this.text == text
    {
      this.text := text;
    }
  }

  /** `write_base`: creates `DEST/usage.csv` with its header if needed, then appends the
      lines of the files not already in it. `dest` is the script's `DEST`. */
  method WriteBase(csv: CsvFiles, dest: string, files: FilesArg, classname: string, usage: string)
    modifies csv
    ensures var path := CsvPath(dest, usage);
      csv.text == AfterWrite(old(csv.text), path, AsList(files), classname)
  {
    var path := CsvPath(dest, usage);
    var fs := AsList(files);
    ghost var t0 := csv.text;
    if path !in csv.text {
      csv.text := csv.text[path := CsvHeader];
    }
    var content := csv.text[path];
    assert content == Opened(t0, path);
    ghost var added: string := [];
    assert fs[..0] == [] && content + [] == content;
    if path in t0 {
      UpdateSame(t0, path);
    } else {
      UpdateTwice(t0, path, CsvHeader, content);
    }
    for k := 0 to |fs|
      invariant added == Appended(fs[..k], classname, content)
      invariant csv.text == t0[path := content + added]
    {
      var line := CsvLine(fs[k], classname);
      if !Contains(content, line) {
        WriteStepNew(fs, k, classname, content, added);
        UpdateTwice(t0, path, content + added, content + added + line + "\n");
        csv.text := csv.text[path := csv.text[path] + line + "\n"];
        added := added + (line + "\n");
      } else {
        WriteStepSeen(fs, k, classname, content, added);
      }
    }
    assert fs[..|fs|] == fs;
  }

  /** One turn of the loop of `write_base` for a line not in the text read before the
      loop: it is appended. */
  lemma WriteStepNew(fs: seq<string>, k: nat, classname: string, content: string, added: string)
    requires k < |fs| && added == Appended(fs[..k], classname, content)
    requires !Contains(content, CsvLine(fs[k], classname))
    ensures Appended(fs[..k + 1], classname, content) == added + (CsvLine(fs[k], classname) + "\n")
    ensures content + added + CsvLine(fs[k], classname) + "\n"
      == content + (added + (CsvLine(fs[k], classname) + "\n"))
  {
    AppendedStep(fs, k, classname, content);
  }

  /** One turn of the loop of `write_base` for a line already in the text read before the
      loop: nothing is appended. */
  lemma WriteStepSeen(fs: seq<string>, k: nat, classname: string, content: string, added: string)
    requires k < |fs| && added == Appended(fs[..k], classname, content)
    requires Contains(content, CsvLine(fs[k], classname))
    ensures Appended(fs[..k + 1], classname, content) == added
  {
    AppendedStep(fs, k, classname, content);
    assert added + [] == added;
  }

  lemma UpdateSame(m: map<string, string>, k: string)
    requires k in m
    ensures m[k := m[k]] == m
  {
  }

  lemma UpdateTwice(m: map<string, string>, k: string, v: string, w: string)
    ensures m[k := v][k := w] == m[k := w]
  {
  }

  lemma AppendedStep(fs: seq<string>, k: nat, classname: string, content: string)
    requires k < |fs|
    ensures Appended(fs[..k + 1], classname, content)
      == Appended(fs[..k], classname, content) + Piece(fs[k], classname, content)
  {
    assert fs[..k + 1][..k] == fs[..k];
  }

  /** The line of `f` occurs once its piece is written, whatever was appended between. */
  lemma PieceCovers(f: string, classname: string, content: string, mid: string)
    ensures Contains(content + mid + Piece(f, classname, content), CsvLine(f, classname))
  {
    var line := CsvLine(f, classname);
    if Contains(content, line) {
      ContainsPrefix(content, mid + Piece(f, classname, content), line);
      assert content + (mid + Piece(f, classname, content)) == content + mid + Piece(f, classname, content);
    } else {
      ContainsSelf(line);
      ContainsPrefix(line, "\n", line);
      ContainsSuffix(content + mid, line + "\n", line);
    }
  }

  /** After `write_base`, the line of every file it was given occurs in the file: it was
      there before, or it was appended. */
  lemma {:induction false} AppendedListsAll(files: seq<string>, classname: string, content: string)
    ensures forall f :: f in files ==>
      Contains(content + Appended(files, classname, content), CsvLine(f, classname))
  {
    if files != [] {
      var init, last := files[..|files| - 1], files[|files| - 1];
      var a := Appended(init, classname, content);
      var piece := Piece(last, classname, content);
      AppendedListsAll(init, classname, content);
      assert content + Appended(files, classname, content) == content + a + piece;
      forall f | f in files
        ensures Contains(content + a + piece, CsvLine(f, classname))
      {
        if f in init {
          ContainsPrefix(content + a, piece, CsvLine(f, classname));
        } else {
          PieceCovers(last, classname, content, a);
        }
      }
    }
  }

  /** `write_base` appends nothing exactly when every line is already in the file. */
  lemma {:induction false} AppendedEmptyIff(files: seq<string>, classname: string, content: string)
    ensures Appended(files, classname, content) == [] <==>
      forall f :: f in files ==> Contains(content, CsvLine(f, classname))
  {
    if files != [] {
      var init := files[..|files| - 1];
      AppendedEmptyIff(init, classname, content);
      assert forall f :: f in files <==> f in init || f == files[|files| - 1];
    }
  }

  /** `write_base` is idempotent: called again with the same files and class name it
      appends nothing. */
  lemma WriteBaseIdempotent(files: seq<string>, classname: string, content: string)
    ensures Appended(files, classname, content + Appended(files, classname, content)) == []
  {
    AppendedListsAll(files, classname, content);
    AppendedEmptyIff(files, classname, content + Appended(files, classname, content));
  }

  /** `write_base` only appends: the CSV file it writes starts with its old text, or with
      the header when it was absent, and every other CSV file is left as it was. */
  lemma WriteKeepsEarlierText(text: map<string, string>, path: string, files: seq<string>,
                              classname: string)
    ensures var r := AfterWrite(text, path, files, classname);
      && path in r
      && (path in text ==> |r[path]| >= |text[path]| && r[path][..|text[path]|] == text[path])
      && (path !in text ==> |r[path]| >= |CsvHeader| && r[path][..|CsvHeader|] == CsvHeader)
      && (forall p :: p in text && p != path ==> p in r && r[p] == text[p])
  {
    var c := Opened(text, path);
    var r := AfterWrite(text, path, files, classname);
    assert r[path] == c + Appended(files, classname, c);
    assert r[path][..|c|] == c;
  }

  /** A single file, which `write_base` wraps in a list, gets its line appended exactly
      when the line is not yet in the file. */
  lemma WriteOneFile(text: map<string, string>, path: string, f: string, classname: string)
    ensures var c, line := Opened(text, path), CsvLine(f, classname);
      AfterWrite(text, path, AsList(One(f)), classname)[path]
        == if Contains(c, line) then c else c + line + "\n"
  {
    var c := Opened(text, path);
    SingleAppended(f, classname, c);
    assert c + [] == c;
  }

  /** Within one call the appended lines are not checked against each other: a file
      given twice whose line is new gets two lines. */
  lemma RepeatedInOneCall(f: string, classname: string, content: string)
    requires !Contains(content, CsvLine(f, classname))
    ensures Appended([f, f], classname, content)
      == CsvLine(f, classname) + "\n" + CsvLine(f, classname) + "\n"
  {
    var line := CsvLine(f, classname);
    assert [f, f][..1] == [f];
    assert [f][..0] == [];
    assert Appended([f], classname, content) == [] + (line + "\n");
    assert Appended([f, f], classname, content) == ([] + (line + "\n")) + (line + "\n");
  }

  /** The effect of one `write_base` call per file, in order, as the copying loops do. */
  function AfterEachWrite(text: map<string, string>, path: string, files: seq<string>,
                          classname: string): map<string, string>
  {
    if files == [] then text
    else AfterWrite(AfterEachWrite(text, path, files[..|files| - 1], classname),
                    path, [files[|files| - 1]], classname)
  }

  /** One call per file also leaves the line of every file in the CSV file. */
  lemma {:induction false} EachWriteListsAll(text: map<string, string>, path: string,
                                           files: seq<string>, classname: string)
    ensures files != [] ==> path in AfterEachWrite(text, path, files, classname)
    ensures forall f :: f in files ==>
      Contains(AfterEachWrite(text, path, files, classname)[path], CsvLine(f, classname))
  {
    if files != [] {
      var init, last := files[..|files| - 1], files[|files| - 1];
      var t := AfterEachWrite(text, path, init, classname);
      EachWriteListsAll(text, path, init, classname);
      var content := Opened(t, path);
      var piece := Piece(last, classname, content);
      SingleAppended(last, classname, content);
      var r := AfterEachWrite(text, path, files, classname);
      assert r == t[path := content + piece];
      forall f | f in init ensures Contains(content + piece, CsvLine(f, classname)) {
        ContainsPrefix(content, piece, CsvLine(f, classname));
      }
      PieceCovers(last, classname, content, []);
      assert content + [] == content;
    }
  }

  lemma SingleAppended(f: string, classname: string, content: string)
    ensures Appended([f], classname, content) == Piece(f, classname, content)
  {
    assert [f][..0] == [];
  }

  /** One call per file writes no CSV file but its own. */
  lemma {:induction false} EachWriteKeepsOthers(text: map<string, string>, path: string,
                                              files: seq<string>, classname: string, p: string)
    requires p != path && p in text
    ensures p in AfterEachWrite(text, path, files, classname)
    ensures AfterEachWrite(text, path, files, classname)[p] == text[p]
  {
    if files != [] {
      EachWriteKeepsOthers(text, path, files[..|files| - 1], classname, p);
    }
  }

  /** One call per file never repeats a line: a second file with the same path adds nothing. */
  lemma EachWriteSkipsRepeat(text: map<string, string>, path: string, f: string, classname: string)
    ensures AfterEachWrite(text, path, [f, f], classname) == AfterEachWrite(text, path, [f], classname)
  {
    assert [f, f][..1] == [f];
    var t := AfterEachWrite(text, path, [f], classname);
    EachWriteListsAll(text, path, [f], classname);
    AppendedEmptyIff([f], classname, t[path]);
    assert t[path] + [] == t[path];
    assert t[path := t[path]] == t;
  }

  /** `N = math.ceil(len(files) * frac)` for the fraction `num / den`. */
  function SampleSize(count: nat, num: int, den: int): (n: int)
    requires den > 0
    ensures (n - 1) * den < count * num <= n * den
  {
    -((-(count * num)) / den)
  }

  /** Position of the first `x` in `s`: Python's `list.index`. */
  function Index(s: seq<string>, x: string): (i: nat)
    requires x in s
    ensures i < |s| && s[i] == x && x !in s[..i]
  {
    IndexOf(s, x).value
  }

  /** `del(s[s.index(x)])`: the first `x` removed. */
  function RemoveFirst(s: seq<string>, x: string): (r: seq<string>)
    requires x in s
    ensures multiset(r) == multiset(s) - multiset{x}
  {
    var i := Index(s, x);
    assert s == s[..i] + [x] + s[i + 1..];
    s[..i] + s[i + 1..]
  }

  /** The removal loop `for i in valid: del(files[files.index(i)])`. */
  function RemoveEach(s: seq<string>, xs: seq<string>): (r: seq<string>)
    requires multiset(xs) <= multiset(s)
    ensures multiset(r) == multiset(s) - multiset(xs)
  {
    if xs == [] then s
    else
      var init, x := xs[..|xs| - 1], xs[|xs| - 1];
      assert xs == init + [x];
      var before := RemoveEach(s, init);
      assert x in multiset(before);
      RemoveFirst(before, x)
  }

  /** The next sampled file is still in the list when the loop reaches it. */
  lemma RemoveEachStep(s: seq<string>, xs: seq<string>, i: nat)
    requires multiset(xs) <= multiset(s) && i < |xs|
    ensures multiset(xs[..i]) <= multiset(s) && multiset(xs[..i + 1]) <= multiset(s)
    ensures xs[i] in RemoveEach(s, xs[..i])
    ensures RemoveEach(s, xs[..i + 1]) == RemoveFirst(RemoveEach(s, xs[..i]), xs[i])
  {
    assert xs == xs[..i + 1] + xs[i + 1..];
    assert xs[..i + 1] == xs[..i] + [xs[i]];
    assert xs[..i + 1][..i] == xs[..i];
    assert xs[i] in multiset(RemoveEach(s, xs[..i]));
  }

  /** `random.sample(files, k=n)`: any `n` of the files (any sub-multiset of size `n`, in
      any order); ValueError (`ok` false) unless 0 <= n <= len(files). */
  method Sample(files: seq<string>, n: int) returns (ok: bool, valid: seq<string>)
    ensures ok <==> 0 <= n <= |files|
    ensures !ok ==> valid == []
    ensures ok ==> |valid| == n && multiset(valid) <= multiset(files)
  {
    if n < 0 || n > |files| {
      return false, [];
    }
    assert files == files[..n] + files[n..];
    assert multiset(files[..n]) <= multiset(files);
    valid :| |valid| == n && multiset(valid) <= multiset(files);
    ok := true;
  }

  /** The loop `for i in valid: del(files[files.index(i)])`, on a sample of `files`. */
  method RemoveSampled(files: seq<string>, valid: seq<string>) returns (rest: seq<string>)
    requires multiset(valid) <= multiset(files)
    ensures rest == RemoveEach(files, valid)
    ensures multiset(rest) + multiset(valid) == multiset(files) && |rest| == |files| - |valid|
  {
    rest := files;
    assert valid[..0] == [];
    for i := 0 to |valid|
      invariant multiset(valid[..i]) <= multiset(files)
      invariant rest == RemoveEach(files, valid[..i])
    {
      RemoveEachStep(files, valid, i);
      rest := RemoveFirst(rest, valid[i]);
    }
    assert valid[..|valid|] == valid;
    RemovedSize(files, valid);
  }

  lemma RemovedSize(s: seq<string>, xs: seq<string>)
    requires multiset(xs) <= multiset(s)
    ensures multiset(RemoveEach(s, xs)) + multiset(xs) == multiset(s)
    ensures |RemoveEach(s, xs)| == |s| - |xs|
  {
    var r := RemoveEach(s, xs);
    assert multiset(r) + multiset(xs) == multiset(s);
    assert |multiset(r) + multiset(xs)| == |multiset(r)| + |multiset(xs)|;
  }

  /** The elements of `s` not in `drop`, in their order in `s`. */
  function Without(s: seq<string>, drop: set<string>): (r: seq<string>)
    ensures forall x :: x in r <==> x in s && x !in drop
  {
    if s == [] then []
    else (if s[0] in drop then [] else [s[0]]) + Without(s[1..], drop)
  }

  /** `Without` keeps the order: filtering a concatenation filters each part. */
  lemma {:induction false} WithoutConcat(a: seq<string>, b: seq<string>, drop: set<string>)
    ensures Without(a + b, drop) == Without(a, drop) + Without(b, drop)
  {
    if a == [] {
      assert a + b == b;
    } else {
      WithoutConcat(a[1..], b, drop);
      assert a == [a[0]] + a[1..];
      WithoutConcatStep(a[0], a[1..], b, drop);
    }
  }

  /** The step of `WithoutConcat` for `[x] + u`. */
  lemma {:induction false} WithoutConcatStep(x: string, u: seq<string>, b: seq<string>, drop: set<string>)
    requires Without(u + b, drop) == Without(u, drop) + Without(b, drop)
    ensures Without([x] + u + b, drop) == Without([x] + u, drop) + Without(b, drop)
  {
    ConcatAssoc([x], u, b);
    WithoutCons(x, u + b, drop);
    WithoutCons(x, u, drop);
    ConcatAssoc(if x in drop then [] else [x], Without(u, drop), Without(b, drop));
  }

  lemma ConcatAssoc(h: seq<string>, p: seq<string>, q: seq<string>)
    ensures h + (p + q) == h + p + q
  {
  }

  lemma {:induction false} WithoutCons(x: string, rest: seq<string>, drop: set<string>)
    ensures Without([x] + rest, drop) == (if x in drop then [] else [x]) + Without(rest, drop)
  {
    assert ([x] + rest)[0] == x && ([x] + rest)[1..] == rest;
  }

  /** A single element is kept, or dropped. */
  lemma WithoutOne(x: string, drop: set<string>)
    ensures Without([x], drop) == if x in drop then [] else [x]
  {
    assert [x][1..] == [];
  }

  /** The elements of `xs`, as a set. */
  function Elems(xs: seq<string>): (r: set<string>)
    ensures forall x :: x in r <==> x in xs
  {
    if xs == [] then {}
    else
      assert forall x :: x in xs <==> x in xs[..|xs| - 1] || x == xs[|xs| - 1];
      Elems(xs[..|xs| - 1]) + {xs[|xs| - 1]}
  }

  lemma {:induction false} WithoutAbsent(s: seq<string>, drop: set<string>, x: string)
    requires x !in s
    ensures Without(s, drop + {x}) == Without(s, drop)
  {
    if s != [] {
      WithoutAbsent(s[1..], drop, x);
    }
  }

  lemma RemoveFirstCons(a: string, u: seq<string>, x: string)
    requires a != x && x in u
    ensures RemoveFirst([a] + u, x) == [a] + RemoveFirst(u, x)
  {
    var t := [a] + u;
    assert t[1..] == u;
    var i := Index(u, x);
    assert Index(t, x) == 1 + i;
    assert t[..1 + i] == [a] + u[..i];
    assert t[2 + i..] == u[i + 1..];
  }

  lemma {:induction false} RemoveFirstWithout(s: seq<string>, drop: set<string>, x: string)
    requires NoRepeats(s) && x in s && x !in drop
    ensures x in Without(s, drop)
    ensures RemoveFirst(Without(s, drop), x) == Without(s, drop + {x})
  {
    NoRepeatsTail(s);
    if s[0] == x {
      RemoveHeadWithout(s, drop);
    } else {
      var u := Without(s[1..], drop);
      assert x in s[1..];
      RemoveFirstWithout(s[1..], drop, x);
      assert Without(s, drop + {x}) == (if s[0] in drop then [] else [s[0]]) + Without(s[1..], drop + {x});
      if s[0] in drop {
        assert Without(s, drop) == [] + u == u;
      } else {
        assert Without(s, drop) == [s[0]] + u;
        RemoveFirstCons(s[0], u, x);
      }
    }
  }

  /** Removing the head of a list without repeats from its filtered copy. */
  lemma RemoveHeadWithout(s: seq<string>, drop: set<string>)
    requires s != [] && s[0] !in drop && s[0] !in s[1..]
    ensures s[0] in Without(s, drop)
    ensures RemoveFirst(Without(s, drop), s[0]) == Without(s, drop + {s[0]})
  {
    var x, u := s[0], Without(s[1..], drop);
    WithoutAbsent(s[1..], drop, x);
    assert Without(s, drop) == [x] + u;
    assert Without(s, drop + {x}) == [] + Without(s[1..], drop + {x});
    assert Index([x] + u, x) == 0;
    assert ([x] + u)[1..] == u;
  }

  lemma {:induction false} WithoutEmpty(s: seq<string>)
    ensures Without(s, {}) == s
  {
    if s != [] {
      WithoutEmpty(s[1..]);
    }
  }

  /** In a list of distinct strings each occurs at most once. */
  lemma {:induction false} NoRepeatsCount(s: seq<string>, x: string)
    requires NoRepeats(s)
    ensures multiset(s)[x] <= 1
  {
    if s != [] {
      assert s == [s[0]] + s[1..];
      NoRepeatsTail(s);
      NoRepeatsCount(s[1..], x);
    }
  }

  /** With distinct paths, the removal loop keeps exactly the files not sampled, in their
      original order. */
  lemma {:induction false} RemoveEachDistinct(s: seq<string>, xs: seq<string>)
    requires NoRepeats(s) && multiset(xs) <= multiset(s)
    ensures RemoveEach(s, xs) == Without(s, Elems(xs))
  {
    if xs == [] {
      WithoutEmpty(s);
    } else {
      var init, x := xs[..|xs| - 1], xs[|xs| - 1];
      assert xs == init + [x];
      assert multiset(init) <= multiset(xs);
      RemoveEachDistinct(s, init);
      assert x in s by {
        assert x in multiset(xs);
      }
      assert x !in init by {
        NoRepeatsCount(s, x);
        assert multiset(xs)[x] == multiset(init)[x] + 1;
      }
      RemoveFirstWithout(s, Elems(init), x);
    }
  }

  /** The split is a partition: with distinct paths, the remaining files are the original
      ones minus the sampled ones, in their order, as many as `len - N`; no remaining file
      was sampled, and together the two lists hold exactly the original files. */
  lemma SplitIsPartition(files: seq<string>, valid: seq<string>)
    requires NoRepeats(files) && multiset(valid) <= multiset(files)
    ensures RemoveEach(files, valid) == Without(files, Elems(valid))
    ensures |RemoveEach(files, valid)| == |files| - |valid|
    ensures forall x :: x in RemoveEach(files, valid) ==> x !in valid
    ensures forall x :: x in files <==> x in valid || x in RemoveEach(files, valid)
  {
    RemoveEachDistinct(files, valid);
    RemovedSize(files, valid);
    forall x | x in valid ensures x in files {
      assert x in multiset(valid);
    }
  }

  /** Where `splitdir` copies the file `v` into `dir`: `os.path.join(dir, os.path.basename(v))`. */
  function CopyTarget(dir: string, v: string): string
  {
    Join(dir, Basename(v))
  }

  /** Where `splitdir` copies each file of `files` into `dir`. */
  function Targets(files: seq<string>, dir: string): (r: seq<string>)
    ensures |r| == |files|
  {
    if files == [] then []
    else Targets(files[..|files| - 1], dir) + [CopyTarget(dir, files[|files| - 1])]
  }

  /** The `(source, target)` pairs `shutil.copyfile` is called with, in order. */
  function Copies(files: seq<string>, dir: string): (r: seq<(string, string)>)
    ensures |r| == |files|
  {
    if files == [] then []
    else Copies(files[..|files| - 1], dir) + [(files[|files| - 1], CopyTarget(dir, files[|files| - 1]))]
  }

  /** Every file is copied, in order, to `dir/basename(v)`. */
  lemma {:induction false} CopiesAt(files: seq<string>, dir: string)
    ensures forall k :: 0 <= k < |files| ==> Copies(files, dir)[k] == (files[k], CopyTarget(dir, files[k]))
  {
    if files != [] {
      var init := files[..|files| - 1];
      CopiesAt(init, dir);
      var c := Copies(files, dir);
      forall k | 0 <= k < |files| ensures c[k] == (files[k], CopyTarget(dir, files[k])) {
        if k < |init| {
          assert c[k] == Copies(init, dir)[k];
          assert init[k] == files[k];
        }
      }
    }
  }

  /** The target recorded in the CSV file for each file is the one it was copied to. */
  lemma {:induction false} TargetsAt(files: seq<string>, dir: string)
    ensures forall k :: 0 <= k < |files| ==> Targets(files, dir)[k] == CopyTarget(dir, files[k])
  {
    if files != [] {
      var init := files[..|files| - 1];
      TargetsAt(init, dir);
      var t := Targets(files, dir);
      forall k | 0 <= k < |files| ensures t[k] == CopyTarget(dir, files[k]) {
        if k < |init| {
          assert t[k] == Targets(init, dir)[k];
          assert init[k] == files[k];
        }
      }
    }
  }

  /** One copying loop of `splitdir`: each file is copied to `dir/basename(v)` and
      `write_base` is called with that one target. */
  method CopyEach(csv: CsvFiles, files: seq<string>, dir: string, csvDest: string,
                  classname: string, usage: string)
    returns (copies: seq<(string, string)>)
    modifies csv
    ensures copies == Copies(files, dir)
    ensures csv.text == AfterEachWrite(old(csv.text), CsvPath(csvDest, usage), Targets(files, dir), classname)
  {
    copies := [];
    for k := 0 to |files|
      invariant copies == Copies(files[..k], dir)
      invariant csv.text == AfterEachWrite(old(csv.text), CsvPath(csvDest, usage), Targets(files[..k], dir), classname)
    {
      var fto := CopyTarget(dir, files[k]);
      CopyStep(old(csv.text), CsvPath(csvDest, usage), files, k, dir, classname);
      copies := copies + [(files[k], fto)];
      WriteBase(csv, csvDest, One(fto), classname, usage);
    }
    assert files[..|files|] == files;
  }

  /** One turn of a copying loop of `splitdir`: one more copy, one more `write_base`. */
  lemma CopyStep(text: map<string, string>, path: string, files: seq<string>, k: nat,
                 dir: string, classname: string)
    requires k < |files|
    ensures Copies(files[..k + 1], dir) == Copies(files[..k], dir) + [(files[k], CopyTarget(dir, files[k]))]
    ensures AfterEachWrite(text, path, Targets(files[..k + 1], dir), classname)
      == AfterWrite(AfterEachWrite(text, path, Targets(files[..k], dir), classname),
                    path, [CopyTarget(dir, files[k])], classname)
  {
    assert files[..k + 1][..k] == files[..k];
    var t := Targets(files[..k + 1], dir);
    assert t[..|t| - 1] == Targets(files[..k], dir);
  }

  /** `os.path.join(dest, 'train', classname)` and `os.path.join(dest, 'valid', classname)`. */
  function TrainDir(dest: string, classname: string): string
  {
    Join(Join(dest, "train"), classname)
  }

  function ValidDir(dest: string, classname: string): string
  {
    Join(Join(dest, "valid"), classname)
  }

  /** A copy lands directly inside `dir`: a basename holds no '/', so `join` never
      discards `dir`. */
  lemma {:induction false} CopyTargetInDir(dir: string, v: string)
    ensures CopyTarget(dir, v) ==
      if dir != [] && dir[|dir| - 1] != '/' then dir + "/" + Basename(v) else dir + Basename(v)
  {
    JoinBasename(dir, v);
  }

  /** For a relative class name the validation and the training copies go to two
      different directories. */
  lemma PartDirsDiffer(dest: string, classname: string)
    requires classname == [] || classname[0] != '/'
    ensures TrainDir(dest, classname) != ValidDir(dest, classname)
  {
    var t, v := Join(dest, "train"), Join(dest, "valid");
    JoinEndsWith(dest, "train");
    JoinEndsWith(dest, "valid");
    JoinEndsWith(t, classname);
    JoinEndsWith(v, classname);
    assert |t| == |v|;
    assert t[|t| - 5] == "train"[0];
    assert v[|v| - 5] == "valid"[0];
    assert TrainDir(dest, classname)[|t| - 5] == t[|t| - 5];
    assert ValidDir(dest, classname)[|v| - 5] == v[|v| - 5];
  }

  /** `splitdir(dirname, classname, frac, dest)`: `files` is what `glob` listed, `frac` is
      `num / den`, `csvDest` and `csvOnly` are the script's `DEST` and `CSV_ONLY`. Returns
      whether the sample could be drawn, the copies made and the two lists. */
  method SplitDir(csv: CsvFiles, files: seq<string>, classname: string, num: int, den: int,
                  dest: string, csvDest: string, csvOnly: bool)
    returns (ok: bool, copies: seq<(string, string)>, valid: seq<string>, train: seq<string>)
    requires den > 0
    modifies csv
    ensures ok <==> 0 <= SampleSize(|files|, num, den) <= |files|
    ensures ok ==> |valid| == SampleSize(|files|, num, den) && multiset(valid) <= multiset(files)
    ensures ok ==> train == RemoveEach(files, valid)
    ensures !ok ==> copies == [] && csv.text == old(csv.text)
    ensures ok && !csvOnly ==>
      && copies == Copies(valid, ValidDir(dest, classname)) + Copies(train, TrainDir(dest, classname))
      && csv.text == AfterEachWrite(
           AfterEachWrite(old(csv.text), CsvPath(csvDest, "valid"), Targets(valid, ValidDir(dest, classname)), classname),
           CsvPath(csvDest, "train"), Targets(train, TrainDir(dest, classname)), classname)
    ensures ok && csvOnly ==>
      && copies == []
      && csv.text == AfterWrite(AfterWrite(old(csv.text), CsvPath(csvDest, "valid"), valid, classname),
                                CsvPath(csvDest, "train"), train, classname)
  {
    var n := SampleSize(|files|, num, den);
    ok, valid := Sample(files, n);
    copies, train := [], files;
    if !ok {
      return;
    }
    train := RemoveSampled(files, valid);
    if !csvOnly {
      var validCopies := CopyEach(csv, valid, ValidDir(dest, classname), csvDest, classname, "valid");
      var trainCopies := CopyEach(csv, train, TrainDir(dest, classname), csvDest, classname, "train");
      copies := validCopies + trainCopies;
    } else {
      WriteBase(csv, csvDest, Many(valid), classname, "valid");
      WriteBase(csv, csvDest, Many(train), classname, "train");
    }
  }

  /** `valid.csv` and `train.csv` are two different files, wherever `DEST` points. */
  lemma CsvPathsDiffer(dest: string)
    ensures CsvPath(dest, "valid") != CsvPath(dest, "train")
  {
    var v, t := CsvPath(dest, "valid"), CsvPath(dest, "train");
    JoinEndsWith(dest, "valid.csv");
    JoinEndsWith(dest, "train.csv");
    assert v[|v| - 9] == "valid.csv"[0];
    assert t[|t| - 9] == "train.csv"[0];
  }

  /** In CSV-only mode every sampled file is listed in `valid.csv` and every other file in
      `train.csv`, both with the class name. */
  lemma CsvOnlyListsBoth(text: map<string, string>, csvDest: string, valid: seq<string>,
                         train: seq<string>, classname: string)
    ensures var vp, tp := CsvPath(csvDest, "valid"), CsvPath(csvDest, "train");
      var r := AfterWrite(AfterWrite(text, vp, valid, classname), tp, train, classname);
      vp in r && tp in r
      && (forall f :: f in valid ==> Contains(r[vp], CsvLine(f, classname)))
      && (forall f :: f in train ==> Contains(r[tp], CsvLine(f, classname)))
  {
    var vp, tp := CsvPath(csvDest, "valid"), CsvPath(csvDest, "train");
    CsvPathsDiffer(csvDest);
    var mid := AfterWrite(text, vp, valid, classname);
    AppendedListsAll(valid, classname, Opened(text, vp));
    AppendedListsAll(train, classname, Opened(mid, tp));
  }

  /** In copying mode every copy target is listed in the CSV file of its part. */
  lemma CopyModeListsBoth(text: map<string, string>, csvDest: string, validTargets: seq<string>,
                          trainTargets: seq<string>, classname: string)
    ensures var vp, tp := CsvPath(csvDest, "valid"), CsvPath(csvDest, "train");
      var r := AfterEachWrite(AfterEachWrite(text, vp, validTargets, classname), tp, trainTargets, classname);
      (validTargets != [] ==> vp in r)
      && (forall f :: f in validTargets ==> Contains(r[vp], CsvLine(f, classname)))
      && (forall f :: f in trainTargets ==> Contains(r[tp], CsvLine(f, classname)))
  {
    var vp, tp := CsvPath(csvDest, "valid"), CsvPath(csvDest, "train");
    CsvPathsDiffer(csvDest);
    var mid := AfterEachWrite(text, vp, validTargets, classname);
    EachWriteListsAll(text, vp, validTargets, classname);
    if validTargets != [] {
      EachWriteKeepsOthers(mid, tp, trainTargets, classname, vp);
    }
    EachWriteListsAll(mid, tp, trainTargets, classname);
  }

  /** The sample can be drawn exactly when `-1 < len(files) * frac <= len(files)`: a
      fraction above 1 makes `random.sample` raise, and so does one at or below
      `-1 / len(files)`. */
  lemma SampleDrawable(count: nat, num: int, den: int)
    requires den > 0
    ensures 0 <= SampleSize(count, num, den) <= count <==> -den < count * num <= count * den
  {
    var n := SampleSize(count, num, den);
    if 0 <= n <= count {
      assert (n - 1) * den >= -den;
      assert n * den <= count * den;
    }
  }
}
