/** The download ledger of dl-imgnet.py: a CSV file, one row per saved image, read by
    `is_in_db` and appended to by `save_data`. */
module Ledger {
  import opened Str

  /** The line `save_data` writes when it finds no ledger file. */
  const Header: string := "Sysnet Name,Base URL,Classname,Imagenet ID\n"

  /** The row `save_data` appends: `"imname",url,"classname",nid` and a newline. */
  function Row(imname: string, url: string, classname: string, nid: string): (r: string)
    ensures OccursAt(r, imname, 1)
    ensures r[|r| - 1] == '\n'
  {
    var r := "\"" + imname + "\"," + url + ",\"" + classname + "\"," + nid + "\n";
    assert r[1..1 + |imname|] == imname;
    r
  }

  /** What `is_in_db(imname)` answers for a ledger file `file` (None when absent):
      false when the file cannot be opened for reading, otherwise whether some line
      returned by `readlines()` contains `imname`. */
  predicate Lists(file: Option<string>, readable: bool, imname: string)
  {
    file.Some? && readable
    && exists k :: 0 <= k < |ReadLines(file.value)| && Contains(ReadLines(file.value)[k], imname)
  }

  /** The text that precedes the new row once `save_data` has run: the file as it was,
      or the header line when there was no file. */
  function Before(file: Option<string>): string
  {
    if file.None? then Header else file.value
  }

  /** The ledger after `save_data` appended `row`, when it did not exit: opening for
      append fails when `writable` is false, and that failure is swallowed. A successful
      append keeps the earlier text (the header, for a new ledger) and adds `row` at the
      end, and nothing else. */
  function AfterSave(file: Option<string>, writable: bool, row: string): (r: Option<string>)
    ensures !writable ==> r == file
    ensures writable ==> r.Some? && |r.value| >= |row| && r.value[|r.value| - |row|..] == row
    ensures writable && file.Some? ==>
      |r.value| == |file.value| + |row| && r.value[..|file.value|] == file.value
    ensures writable && file.None? ==>
      |r.value| == |Header| + |row| && r.value[..|Header|] == Header
  {
    if writable then
      var t := Before(file) + row;
      assert t[..|Before(file)|] == Before(file) && t[|Before(file)|..] == row;
      Some(t)
    else file
  }

  /** The header is written once: two saves in a row leave the same ledger as one save
      of both rows. */
  lemma HeaderWrittenOnce(file: Option<string>, row1: string, row2: string)
    ensures AfterSave(AfterSave(file, true, row1), true, row2) == AfterSave(file, true, row1 + row2)
  {
    assert Before(file) + row1 + row2 == Before(file) + (row1 + row2);
  }

  /** The ledger file. `content` is None while the file does not exist; `readable` and
      `writable` say whether opening it for reading, and for appending, succeeds. */
  class LedgerFile {
    var content: Option<string>
    var readable: bool
    var writable: bool

    constructor (content: Option<string>, readable: bool, writable: bool)
      ensures this.content == content && this.readable == readable && this.writable == writable
    {
      this.content := content;
      this.readable := readable;
      this.writable := writable;
    }

    /** `is_in_db`: a scan of the ledger's lines that stops at the first one holding
        `imname`; false when the file is absent or cannot be read. */
    method IsInDb(imname: string) returns (found: bool)
      ensures content.None? || !readable ==> !found
      ensures found <==> Lists(content, readable, imname)
    {
      if content.None? || !readable {
        return false;
      }
      var lines := ReadLines(content.value);
      for k := 0 to |lines|
        invariant forall j :: 0 <= j < k ==> !Contains(lines[j], imname)
      {
        if Contains(lines[k], imname) {
          return true;
        }
      }
      return false;
    }

    /** `save_data`: writes the header when the file is absent, then appends the row.
        `exits` is true when the header could not be written, where the script calls
        `sys.exit(0)`; nothing is written then. */
    method SaveData(imname: string, url: string, classname: string, nid: string) returns (exits: bool)
      modifies this
      ensures readable == old(readable) && writable == old(writable)
      ensures exits <==> old(content).None? && !writable
      ensures exits ==> content == old(content)
      ensures !exits ==> content == AfterSave(old(content), writable, Row(imname, url, classname, nid))
    {
      if content.None? {
        if !writable {
          return true;
        }
        content := Some(Header);
      }
      if writable {
        content := Some(content.value + Row(imname, url, classname, nid));
      }
      return false;
    }
  }

  /** Scanning lines is a whole-file substring search, for a name without '\n' (and
      unless both the file and the name are empty: an empty file has no lines). */
  lemma ListedIffContains(text: string, name: string)
    requires '\n' !in name && (text != [] || name != [])
    ensures Lists(Some(text), true, name) <==> Contains(text, name)
  {
    if Contains(text, name) {
      assert text != [] by {
        var i :| 0 <= i <= |text| && OccursAt(text, name, i);
      }
      ContainsInSomeLine(text, name);
    }
    if Lists(Some(text), true, name) {
      var k :| 0 <= k < |ReadLines(text)| && Contains(ReadLines(text)[k], name);
      LineContainedInFile(text, k, name);
    }
  }

  /** Every name without '\n' that occurs in a saved row, the saved name itself and any
      piece of it, is reported as present afterwards: the dedup test is a substring
      test, so `n01_1` counts as downloaded once `n01_10` has been saved. */
  lemma PieceOfSavedNameListed(file: Option<string>, imname: string, url: string,
                               classname: string, nid: string, piece: string)
    requires Contains(imname, piece) && '\n' !in piece
    ensures Lists(AfterSave(file, true, Row(imname, url, classname, nid)), true, piece)
  {
    var row := Row(imname, url, classname, nid);
    var j :| 0 <= j <= |imname| && OccursAt(imname, piece, j);
    assert row[1 + j..1 + j + |piece|] == row[1..1 + |imname|][j..j + |piece|];
    assert OccursAt(row, piece, 1 + j);
    ContainsInConcat(Before(file), row, [], piece);
    assert Before(file) + row + [] == Before(file) + row;
    ListedIffContains(Before(file) + row, piece);
  }

  /** The dedup contract: once `save_data(imname, ...)` has appended its row, `is_in_db`
      finds `imname`, so a later run skips the image. */
  lemma SavedNameListed(file: Option<string>, imname: string, url: string,
                        classname: string, nid: string)
    requires '\n' !in imname
    ensures Lists(AfterSave(file, true, Row(imname, url, classname, nid)), true, imname)
  {
    ContainsSelf(imname);
    PieceOfSavedNameListed(file, imname, url, classname, nid, imname);
  }
}
