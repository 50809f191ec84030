/** The producer in the `__main__` block of dl-imgnet.py: it reads the catalog listing of
    every requested collection and turns it into the work items put on the queue. */
module Producer {
  import opened Str

  /** The tuple `(imname, url, classname, total, index, nid)` put on the queue. */
  datatype WorkItem = WorkItem(imname: string, url: string, classname: string,
                               total: int, index: int, nid: string)

  /** A catalog line is kept when `split(' ')` cuts it into exactly two fields,
      the name and the URL. */
  function ParseEntry(line: string): Option<(string, string)>
  {
    var fields := Split(line, ' ');
    if |fields| == 2 then Some((fields[0], fields[1])) else None
  }

  /** Exactly the lines `name url` with one space and no other are kept, and they give
      back their name and URL. */
  lemma ParseEntryIff(line: string, name: string, url: string)
    ensures ParseEntry(line) == Some((name, url)) <==>
      line == name + " " + url && ' ' !in name && ' ' !in url
  {
    if ParseEntry(line) == Some((name, url)) {
      SplitJoin(line, ' ');
      var f := Split(line, ' ');
      assert f[1..] == [url];
    }
    if line == name + " " + url && ' ' !in name && ' ' !in url {
      SplitAfterFirst(name, ' ', url);
      SplitNoSep(url, ' ');
      assert name + [' '] + url == line;
    }
  }

  /** A bare URL (a line without a space) is skipped. */
  lemma BareLineSkipped(line: string)
    requires ' ' !in line
    ensures ParseEntry(line).None?
  {
    SplitNoSep(line, ' ');
  }

  /** The collection ids as the loop sees them: `nids.split(',')`, each stripped. There is
      one id per comma-separated piece, id k is piece k stripped, none holds a comma, and
      none starts or ends with whitespace. */
  function Ids(nids: string): (r: seq<string>)
    ensures |r| == |Split(nids, ',')|
    ensures forall k :: 0 <= k < |r| ==> r[k] == Strip(Split(nids, ',')[k])
    ensures forall k :: 0 <= k < |r| ==> ',' !in r[k] && Stripped(r[k])
  {
    var parts := Split(nids, ',');
    StripKeepsOut(parts, ',');
    seq(|parts|, k requires 0 <= k < |parts| => Strip(parts[k]))
  }

  /** A character absent from every piece is absent from every stripped piece. */
  lemma StripKeepsOut(parts: seq<string>, c: char)
    requires forall k :: 0 <= k < |parts| ==> c !in parts[k]
    ensures forall k :: 0 <= k < |parts| ==> c !in Strip(parts[k])
  {
    forall k | 0 <= k < |parts| ensures c !in Strip(parts[k]) {
      if c in Strip(parts[k]) {
        StripFrom(parts[k], c);
      }
    }
  }

  /** `Ids` reads back a comma-separated list of comma-free, stripped ids: the ids
      joined with ',' give the same ids, in order. */
  lemma IdsOfJoined(ids: seq<string>)
    requires |ids| >= 1 && forall k :: 0 <= k < |ids| ==> ',' !in ids[k] && Stripped(ids[k])
    ensures |Ids(JoinWith(ids, ','))| == |ids|
    ensures forall k :: 0 <= k < |ids| ==> Ids(JoinWith(ids, ','))[k] == ids[k]
  {
    JoinSplit(ids, ',');
    forall k | 0 <= k < |ids| ensures Ids(JoinWith(ids, ','))[k] == ids[k] {
      StripStripped(ids[k]);
    }
  }

  /** Comma-free, stripped ids padded with whitespace on either side and joined with ','
      (as in `n01, n02`) are read back as the bare ids, in order. */
  lemma IdsOfPadded(ids: seq<string>, pre: seq<string>, post: seq<string>)
    requires |ids| >= 1 && |pre| == |ids| && |post| == |ids|
    requires forall k :: 0 <= k < |ids| ==> ',' !in ids[k] && Stripped(ids[k])
    requires forall k, j :: 0 <= k < |pre| && 0 <= j < |pre[k]| ==> IsSpace(pre[k][j])
    requires forall k, j :: 0 <= k < |post| && 0 <= j < |post[k]| ==> IsSpace(post[k][j])
    ensures Ids(JoinWith(seq(|ids|, k requires 0 <= k < |ids| => pre[k] + ids[k] + post[k]), ',')) == ids
  {
    var pieces := seq(|ids|, k requires 0 <= k < |ids| => pre[k] + ids[k] + post[k]);
    forall k | 0 <= k < |pieces| ensures ',' !in pieces[k] {
      assert ',' !in pre[k] && ',' !in post[k];
    }
    JoinSplit(pieces, ',');
    var r := Ids(JoinWith(pieces, ','));
    forall k | 0 <= k < |ids| ensures r[k] == ids[k] {
      StripPadded(pre[k], ids[k], post[k]);
    }
  }

  /** A space after the comma is dropped: `"n01, n02"` names the collections `n01` and `n02`. */
  lemma SpacedIds()
    ensures Ids("n01, n02") == ["n01", "n02"]
  {
    var ids, pre, post := ["n01", "n02"], ["", " "], ["", ""];
    var pieces := seq(|ids|, k requires 0 <= k < |ids| => pre[k] + ids[k] + post[k]);
    assert pieces[0] == "" + "n01" + "" == "n01";
    assert pieces[1] == " " + "n02" + "" == " n02";
    assert pieces == ["n01", " n02"];
    assert pieces[1..] == [" n02"];
    assert JoinWith(pieces, ',') == "n01, n02";
    IdsOfPadded(ids, pre, post);
  }

  /** `r` lists its elements in the order of their first occurrence in `ids`: of any two,
      the earlier one occurs in `ids` before the later one first does. */
  predicate FirstSeenOrder(r: seq<string>, ids: seq<string>)
  {
    forall i, j :: 0 <= i < j < |r| ==>
      exists a :: 0 <= a < |ids| && ids[a] == r[i] && r[j] !in ids[..a]
  }

  /** The keys of the `results` dict: each requested id once, in the order it was first
      assigned. */
  function Distinct(ids: seq<string>): (r: seq<string>)
    ensures forall x :: x in r <==> x in ids
    ensures NoRepeats(r)
    ensures FirstSeenOrder(r, ids)
  {
    if ids == [] then []
    else
      var d := Distinct(ids[..|ids| - 1]);
      var x := ids[|ids| - 1];
      assert forall y :: y in ids <==> y in ids[..|ids| - 1] || y == x;
      var r := if x in d then d else d + [x];
      FirstSeenStep(ids, d, r);
      r
  }

  /** Assigning the last id keeps the keys in first-seen order. */
  lemma FirstSeenStep(ids: seq<string>, d: seq<string>, r: seq<string>)
    requires ids != []
    requires forall x :: x in d <==> x in ids[..|ids| - 1]
    requires FirstSeenOrder(d, ids[..|ids| - 1])
    requires r == if ids[|ids| - 1] in d then d else d + [ids[|ids| - 1]]
    ensures FirstSeenOrder(r, ids)
  {
    var init, x := ids[..|ids| - 1], ids[|ids| - 1];
    forall i, j | 0 <= i < j < |r|
      ensures exists a :: 0 <= a < |ids| && ids[a] == r[i] && r[j] !in ids[..a]
    {
      assert r[i] == d[i];
      var a;
      if j < |d| {
        assert r[j] == d[j];
        a :| 0 <= a < |init| && init[a] == d[i] && d[j] !in init[..a];
      } else {
        assert r[j] == x && x !in init;
        assert d[i] in d;
        a :| 0 <= a < |init| && init[a] == d[i];
      }
      assert ids[..a] == init[..a];
      assert ids[a] == r[i];
    }
  }

  /** The number of catalog lines over `ids`, an id counted each time it appears. */
  function LineCount(ids: seq<string>, catalog: string -> seq<string>): nat
  {
    if ids == [] then 0
    else LineCount(ids[..|ids| - 1], catalog) + |catalog(ids[|ids| - 1])|
  }

  /** The accepted lines of one collection, as (name, url, nid), in catalog order. */
  function EntriesOf(nid: string, lines: seq<string>): seq<(string, string, string)>
  {
    if lines == [] then []
    else
      var before := EntriesOf(nid, lines[..|lines| - 1]);
      match ParseEntry(lines[|lines| - 1])
      case None => before
      case Some((name, url)) => before + [(name, url, nid)]
  }

  /** The accepted lines of every collection in `keys`, collection after collection. */
  function Entries(keys: seq<string>, catalog: string -> seq<string>): seq<(string, string, string)>
  {
    if keys == [] then []
    else Entries(keys[..|keys| - 1], catalog) + EntriesOf(keys[|keys| - 1], catalog(keys[|keys| - 1]))
  }

  /** The items put on the queue for `entries`, numbered from 0 in order. */
  function Items(entries: seq<(string, string, string)>, classname: string, total: int): seq<WorkItem>
  {
    if entries == [] then []
    else
      var e := entries[|entries| - 1];
      Items(entries[..|entries| - 1], classname, total)
        + [WorkItem(e.0, e.1, classname, total, |entries| - 1, e.2)]
  }

  /** Each queued item is the matching entry, numbered by its position, carrying the
      class name and the batch total. */
  lemma {:induction false} ItemsAt(entries: seq<(string, string, string)>, classname: string, total: int)
    ensures |Items(entries, classname, total)| == |entries|
    ensures forall k :: 0 <= k < |entries| ==>
      Items(entries, classname, total)[k]
        == WorkItem(entries[k].0, entries[k].1, classname, total, k, entries[k].2)
  {
    if entries != [] {
      var init := entries[..|entries| - 1];
      ItemsAt(init, classname, total);
      forall k | 0 <= k < |init| ensures init[k] == entries[k] { }
    }
  }

  /** A collection gives at most one entry per line, and every entry of it comes from one
      of its lines, tagged with its id. */
  lemma {:induction false} EntriesOfBound(nid: string, lines: seq<string>)
    ensures |EntriesOf(nid, lines)| <= |lines|
    ensures forall k :: 0 <= k < |EntriesOf(nid, lines)| ==>
      EntriesOf(nid, lines)[k].2 == nid
      && exists j :: 0 <= j < |lines|
           && ParseEntry(lines[j]) == Some((EntriesOf(nid, lines)[k].0, EntriesOf(nid, lines)[k].1))
  {
    if lines != [] {
      var init := lines[..|lines| - 1];
      EntriesOfBound(nid, init);
      var before := EntriesOf(nid, init);
      var es := EntriesOf(nid, lines);
      forall k | 0 <= k < |es|
        ensures es[k].2 == nid
        ensures exists j :: 0 <= j < |lines| && ParseEntry(lines[j]) == Some((es[k].0, es[k].1))
      {
        if k < |before| {
          assert es[k] == before[k];
          var j :| 0 <= j < |init| && ParseEntry(init[j]) == Some((before[k].0, before[k].1));
          assert lines[j] == init[j];
        } else {
          assert ParseEntry(lines[|lines| - 1]) == Some((es[k].0, es[k].1));
        }
      }
    }
  }

  lemma {:induction false} EntriesBound(keys: seq<string>, catalog: string -> seq<string>)
    ensures |Entries(keys, catalog)| <= LineCount(keys, catalog)
  {
    if keys != [] {
      EntriesBound(keys[..|keys| - 1], catalog);
      EntriesOfBound(keys[|keys| - 1], catalog(keys[|keys| - 1]));
    }
  }

  /** Counting each id once gives no more lines than counting every occurrence. */
  lemma {:induction false} DistinctCountBound(ids: seq<string>, catalog: string -> seq<string>)
    ensures LineCount(Distinct(ids), catalog) <= LineCount(ids, catalog)
  {
    if ids != [] {
      var init := ids[..|ids| - 1];
      var x := ids[|ids| - 1];
      DistinctCountBound(init, catalog);
      var d := Distinct(init);
      if x !in d {
        assert (d + [x])[..|d + [x]| - 1] == d;
      }
    }
  }

  /** The producer's first loop: counts every line of every requested collection
      into `total` (starting from 1) and keeps each collection once in `results`.
      `catalog(nid)` stands for the lines of `get_list(nid)`. */
  method Collect(ids: seq<string>, catalog: string -> seq<string>)
    returns (total: int, results: seq<string>)
    ensures total == 1 + LineCount(ids, catalog)
    ensures results == Distinct(ids)
  {
    total := 1;
    results := [];
    for i := 0 to |ids|
      invariant total == 1 + LineCount(ids[..i], catalog)
      invariant results == Distinct(ids[..i])
    {
      var nid := ids[i];
      var res := catalog(nid);
      for j := 0 to |res|
        invariant total == 1 + LineCount(ids[..i], catalog) + j
      {
        total := total + 1;
      }
      assert ids[..i + 1][..i] == ids[..i];
      if nid !in results {
        results := results + [nid];
      }
    }
    assert ids[..|ids|] == ids;
  }

  /** The producer's second loop: queues the accepted lines of the kept collections,
      numbering them with `lastidx`. */
  method Enqueue(results: seq<string>, classname: string, total: int,
                 catalog: string -> seq<string>)
    returns (queue: seq<WorkItem>)
    ensures queue == Items(Entries(results, catalog), classname, total)
  {
    var lastidx := 0;
    queue := [];
    for i := 0 to |results|
      invariant queue == Items(Entries(results[..i], catalog), classname, total)
      invariant lastidx == |Entries(results[..i], catalog)|
    {
      var nid := results[i];
      var res := catalog(nid);
      ghost var before := Entries(results[..i], catalog);
      assert res[..0] == [] && before + [] == before;
      for j := 0 to |res|
        invariant queue == Items(before + EntriesOf(nid, res[..j]), classname, total)
        invariant lastidx == |before + EntriesOf(nid, res[..j])|
      {
        match ParseEntry(res[j]) {
          case None =>
            SkipStep(before, nid, res, j);
          case Some((imname, url)) =>
            QueueStep(before, nid, res, j, classname, total);
            queue := queue + [WorkItem(imname, url, classname, total, lastidx, nid)];
            lastidx := lastidx + 1;
        }
      }
      assert res[..|res|] == res;
      EntriesStep(results, i, catalog);
    }
    assert results[..|results|] == results;
  }

  /** A line that is not `name url` adds no entry. */
  lemma SkipStep(before: seq<(string, string, string)>, nid: string, lines: seq<string>, j: nat)
    requires j < |lines| && ParseEntry(lines[j]).None?
    ensures before + EntriesOf(nid, lines[..j + 1]) == before + EntriesOf(nid, lines[..j])
  {
    assert lines[..j + 1][..j] == lines[..j];
  }

  /** A `name url` line adds one entry, queued with the next index. */
  lemma QueueStep(before: seq<(string, string, string)>, nid: string, lines: seq<string>, j: nat,
                  classname: string, total: int)
    requires j < |lines| && ParseEntry(lines[j]).Some?
    ensures var e := (ParseEntry(lines[j]).value.0, ParseEntry(lines[j]).value.1, nid);
      var done := before + EntriesOf(nid, lines[..j]);
      && before + EntriesOf(nid, lines[..j + 1]) == done + [e]
      && Items(done + [e], classname, total)
           == Items(done, classname, total) + [WorkItem(e.0, e.1, classname, total, |done|, nid)]
  {
    assert lines[..j + 1][..j] == lines[..j];
    var e := (ParseEntry(lines[j]).value.0, ParseEntry(lines[j]).value.1, nid);
    var done := before + EntriesOf(nid, lines[..j]);
    assert (done + [e])[..|done + [e]| - 1] == done;
  }

  /** The entries of one more collection come after those of the earlier ones. */
  lemma EntriesStep(keys: seq<string>, i: nat, catalog: string -> seq<string>)
    requires i < |keys|
    ensures Entries(keys[..i + 1], catalog) == Entries(keys[..i], catalog) + EntriesOf(keys[i], catalog(keys[i]))
  {
    assert keys[..i + 1][..i] == keys[..i];
  }

  /** The whole producer: `nids` is the comma-separated list of collection ids. */
  method Produce(nids: string, classname: string, catalog: string -> seq<string>)
    returns (total: int, queue: seq<WorkItem>)
    ensures total == 1 + LineCount(Ids(nids), catalog)
    ensures queue == Items(Entries(Distinct(Ids(nids)), catalog), classname, total)
    ensures forall k :: 0 <= k < |queue| ==>
      queue[k].index == k && queue[k].classname == classname
      && queue[k].total == total && queue[k].index + 1 < total
  {
    var results;
    total, results := Collect(Ids(nids), catalog);
    queue := Enqueue(results, classname, total, catalog);
    IndexBelowTotal(Ids(nids), catalog);
    ItemsAt(Entries(results, catalog), classname, total);
  }

  /** Every queued index + 1 is below the batch total: skipped lines and repeated ids
      are counted in the total too. */
  lemma IndexBelowTotal(ids: seq<string>, catalog: string -> seq<string>)
    ensures |Entries(Distinct(ids), catalog)| < 1 + LineCount(ids, catalog)
  {
    EntriesBound(Distinct(ids), catalog);
    DistinctCountBound(ids, catalog);
  }

  /** A single id without a comma and without surrounding whitespace is the only key. */
  lemma SingleId(nid: string)
    requires ',' !in nid && Stripped(nid)
    ensures |Ids(nid)| == 1 && Ids(nid)[0] == nid
    ensures Distinct(Ids(nid)) == [nid]
  {
    assert JoinWith([nid], ',') == nid;
    IdsOfJoined([nid]);
    var ids := Ids(nid);
    assert ids == [nid];
    DistinctOne(nid);
  }

  lemma DistinctOne(x: string)
    ensures Distinct([x]) == [x]
  {
    assert [x][..0] == [];
  }

  /** A `name url` line followed by a line without a space gives one entry. */
  lemma GoodThenBare(nid: string, lines: seq<string>, name: string, url: string, junk: string)
    requires lines == [name + " " + url, junk]
    requires ' ' !in name && ' ' !in url && ' ' !in junk
    ensures EntriesOf(nid, lines) == [(name, url, nid)]
  {
    ParseEntryIff(lines[0], name, url);
    BareLineSkipped(junk);
    assert lines[..1][..0] == [];
    assert EntriesOf(nid, lines[..1]) == [(name, url, nid)];
  }

  /** With one key, the entries are that collection's and the count is its line count. */
  lemma OneKey(ids: seq<string>, catalog: string -> seq<string>)
    requires |ids| == 1
    ensures LineCount(ids, catalog) == |catalog(ids[0])|
    ensures Entries(ids, catalog) == EntriesOf(ids[0], catalog(ids[0]))
  {
    assert ids[..0] == [];
  }

  /** One collection whose listing holds a `name url` line and then a line without a
      space: the second line is skipped, one item is queued, numbered 0, and the batch
      total still counts both lines. */
  lemma OneWellFormedLine(nid: string, catalog: string -> seq<string>,
                          name: string, url: string, junk: string, classname: string)
    requires ',' !in nid && Stripped(nid)
    requires catalog(nid) == [name + " " + url, junk]
    requires ' ' !in name && ' ' !in url && ' ' !in junk
    ensures 1 + LineCount(Ids(nid), catalog) == 3
    ensures Items(Entries(Distinct(Ids(nid)), catalog), classname, 3)
         == [WorkItem(name, url, classname, 3, 0, nid)]
  {
    SingleId(nid);
    OneKey(Ids(nid), catalog);
    OneKey([nid], catalog);
    GoodThenBare(nid, catalog(nid), name, url, junk);
    var e := EntriesOf(nid, catalog(nid));
    assert e[..0] == [];
  }
}
