/** `dl_image` of dl-imgnet.py: the checks one catalog item goes through before its image
    is written under `dest/classname` and recorded in the ledger. */
module Download {
  import opened Str
  import opened PosixPath
  import opened Progress
  import opened Ledger

  newtype byte = x: int | 0 <= x < 256

  /** md5 digests (hex) of images never kept: the flickr placeholder, a warning sign,
      a forbidden sign and the hugedomain logo. */
  const BadImg: seq<string> := [
    "880a7a58e05d3e83797f27573bb6d35c",
    "596246739a83bb45e30e13437e0810d9",
    "969e595182a947c7fdaaef4a34401760",
    "af5db09e39ca35d8930b4e59962e09e5"
  ]

  /** What `requests.get(imurl, timeout=TIMEOUT)` gave: an exception (its message), or a
      response with its status code and body. */
  datatype Fetch = Raised(error: string) | Response(status: int, content: seq<byte>)

  /** Where the chain of checks ends. */
  datatype Verdict =
    | AlreadyDownloaded
    | BadStatus(status: int)
    | CannotDownload(error: string)
    | NotAnImage
    | BadImage
    | Accepted(ext: string)

  /** The chain of checks: ledger, then the fetch, then the image type (`what` stands for
      `imghdr.what`), then the md5 deny-list (`md5` stands for the hex digest). The first
      check that fails decides; only an item passing all four is accepted. */
  function Decide(listed: bool, fetch: Fetch, what: seq<byte> -> Option<string>,
                  md5: seq<byte> -> string): (v: Verdict)
    ensures listed ==> v == AlreadyDownloaded
    ensures v.CannotDownload? <==> !listed && fetch.Raised?
    ensures v.CannotDownload? ==> v.error == fetch.error
    ensures v.BadStatus? <==> !listed && fetch.Response? && fetch.status != 200
    ensures v.BadStatus? ==> v.status == fetch.status
    ensures v.NotAnImage? <==>
      !listed && fetch.Response? && fetch.status == 200 && what(fetch.content).None?
    ensures v.BadImage? <==>
      !listed && fetch.Response? && fetch.status == 200 && what(fetch.content).Some?
      && md5(fetch.content) in BadImg
    ensures v.Accepted? <==>
      !listed && fetch.Response? && fetch.status == 200 && what(fetch.content).Some?
      && md5(fetch.content) !in BadImg
    ensures v.Accepted? ==> v.ext == what(fetch.content).value
  {
    if listed then AlreadyDownloaded
    else match fetch
      case Raised(e) => CannotDownload(e)
      case Response(status, content) =>
        if status != 200 then BadStatus(status)
        else match what(content)
          case None => NotAnImage
          case Some(ext) => if md5(content) in BadImg then BadImage else Accepted(ext)
  }

  /** The message `dl_image` hands to `logthat` for each verdict. */
  function Message(v: Verdict, imname: string, imurl: string): string
  {
    match v
    case AlreadyDownloaded => "Image already downloaded, skipping"
    case BadStatus(s) => "Status code is not OK for " + imurl + ", " + IntToString(s)
    case CannotDownload(e) => "Error, connot download " + imurl + " " + e
    case NotAnImage => imname + " seems to not be a valid image file, skipping"
    case BadImage => imname + " md5 corresponds to a bad image, skipping"
    case Accepted(_) => imname + " file saved"
  }

  /** `os.path.join(dest, classname, imname + '.' + ext)`: where an accepted image goes.
      It is named `imname.ext` and lies in `dest/classname`, unless `imname` is an
      absolute path, which `join` then takes as the whole path. */
  function Target(dest: string, classname: string, imname: string, ext: string): string
  {
    Join(Join(dest, classname), imname + "." + ext)
  }

  /** The exact path of an accepted image: `imname.ext` appended to `dest/classname`
      (with one '/' in between unless that directory is empty or already ends with one)
      for a relative name; the name itself for an absolute one. */
  lemma TargetShape(dest: string, classname: string, imname: string, ext: string)
    ensures var dir, name := Join(dest, classname), imname + "." + ext;
      var p := Target(dest, classname, imname, ext);
      && ((imname == [] || imname[0] != '/') && dir != [] && dir[|dir| - 1] != '/' ==>
            p == dir + "/" + name)
      && ((imname == [] || imname[0] != '/') && (dir == [] || dir[|dir| - 1] == '/') ==>
            p == dir + name)
      && (imname != [] && imname[0] == '/' ==> p == name)
  {
    var name := imname + "." + ext;
    assert name[0] == (if imname == [] then '.' else imname[0]);
  }

  /** The destination tree: the directories created and the files written (path to bytes). */
  class Disk {
    var dirs: set<string>
    var files: map<string, seq<byte>>

    constructor (dirs: set<string>, files: map<string, seq<byte>>)
      ensures this.dirs == dirs && this.files == files
    {
      this.dirs := dirs;
      this.files := files;
    }
  }

  /** `dl_image`: creates `dest/classname`, runs the checks, and only for an accepted
      image writes exactly one file and calls `save_data` once. `log` is the progress line
      printed at the end, None when `save_data` exited the worker. */
  method DlImage(ledger: LedgerFile, disk: Disk, imname: string, imurl: string,
                 classname: string, dest: string, total: Option<int>, index: Option<int>,
                 nid: string, fetch: Fetch, what: seq<byte> -> Option<string>,
                 md5: seq<byte> -> string)
    returns (verdict: Verdict, log: Option<string>)
    modifies ledger, disk
    ensures verdict == Decide(Lists(old(ledger.content), old(ledger.readable), imname), fetch, what, md5)
    ensures disk.dirs == old(disk.dirs) + {Join(dest, classname)}
    ensures verdict.Accepted? ==>
      disk.files == old(disk.files)[Target(dest, classname, imname, verdict.ext) := fetch.content]
    ensures !verdict.Accepted? ==> disk.files == old(disk.files)
    ensures ledger.readable == old(ledger.readable) && ledger.writable == old(ledger.writable)
    ensures verdict.Accepted? && log.Some? ==>
      ledger.content == AfterSave(old(ledger.content), old(ledger.writable), Row(imname, imurl, classname, nid))
    ensures !verdict.Accepted? || log.None? ==> ledger.content == old(ledger.content)
    ensures log.None? <==> verdict.Accepted? && old(ledger.content).None? && !old(ledger.writable)
    ensures log.Some? ==> log.value == LogLine(Message(verdict, imname, imurl), total, index)
  {
    disk.dirs := disk.dirs + {Join(dest, classname)};
    var listed := ledger.IsInDb(imname);
    if listed {
      verdict := AlreadyDownloaded;
    } else {
      match fetch {
        case Raised(e) =>
          verdict := CannotDownload(e);
        case Response(status, content) =>
          if status != 200 {
            verdict := BadStatus(status);
          } else {
            var ext := what(content);
            if ext.None? {
              verdict := NotAnImage;
            } else {
              var digest := md5(content);
              if digest in BadImg {
                verdict := BadImage;
              } else {
                verdict := Accepted(ext.value);
                disk.files := disk.files[Target(dest, classname, imname, ext.value) := content];
                assert disk.files == old(disk.files)[Target(dest, classname, imname, verdict.ext) := fetch.content];
                var exits := ledger.SaveData(imname, imurl, classname, nid);
                if exits {
                  log := None;
                  return;
                }
              }
            }
          }
      }
    }
    log := Some(LogLine(Message(verdict, imname, imurl), total, index));
  }

  /** A second run over an image the first run saved skips it before fetching anything,
      whatever the fetch would have returned (the file stays readable and took the row). */
  lemma RerunSkipsSaved(file: Option<string>, imname: string, imurl: string,
                        classname: string, nid: string, fetch: Fetch,
                        what: seq<byte> -> Option<string>, md5: seq<byte> -> string)
    requires '\n' !in imname
    ensures Decide(Lists(AfterSave(file, true, Row(imname, imurl, classname, nid)), true, imname),
                   fetch, what, md5) == AlreadyDownloaded
  {
    SavedNameListed(file, imname, imurl, classname, nid);
  }
}
