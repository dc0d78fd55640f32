/**
 * The bookkeeping of the management web server (`server.py`): the upload limit, the choice of
 * the file time of an uploaded picture, and the caption table that `rename` and `delete` edit.
 *
 * The two folders are sets of file names; the file times that `os.utime` set are kept per name.
 * Flask, the request parsing, PIL and exifread appear only through what they yield: each upload
 * entry's file name, its EXIF `Image DateTime` text if any, and whether PIL can open it to make
 * the thumbnail. The date parsers are parameters returning `None` where they raise.
 */
module Server {
  import opened Wrappers
  import opened Text
  import opened Caption

  /** The default `MAX_IMAGES`. */
  const DefaultMaxImages: int := 20

  /** Milliseconds per second, for the client-side timestamps. */
  const MillisPerSecond: real := 1000.0

  // ---------------------------------------------------------------------------------------
  // Upload

  /** The limit test of `upload`: an upload of `n` entries into a folder of `count` files is refused when the folder is full or would overflow. */
  function Admitted(count: int, n: int, maxImages: int): (ok: bool)
    ensures ok <==> count < maxImages && count + n <= maxImages
  {
    !(count >= maxImages || count + n > maxImages)
  }

  /**
   * The timestamp choice in `upload`: the time given to an uploaded file. The EXIF text is parsed strictly as
   * `%Y:%m:%d %H:%M:%S`, then leniently; only when neither gives a time is the client's value, in
   * milliseconds, used; with none of them there is no time.
   */
  function Precedence(exif: Option<string>, strict: string -> Option<real>, lenient: string -> Option<real>,
                      clientMs: Option<int>): (ts: Option<real>)
    ensures exif.Some? && strict(exif.value).Some? ==> ts == strict(exif.value)
    ensures exif.Some? && strict(exif.value).None? && lenient(exif.value).Some? ==> ts == lenient(exif.value)
    ensures exif.None? || (strict(exif.value).None? && lenient(exif.value).None?) ==>
              ts == if clientMs.Some? then Some(clientMs.value as real / MillisPerSecond) else None
  {
    var fromExif := if exif.None? then None
                    else if strict(exif.value).Some? then strict(exif.value)
                    else lenient(exif.value);
    if fromExif.Some? then fromExif
    else if clientMs.Some? then Some(clientMs.value as real / MillisPerSecond)
    else None
  }

  /** The step-by-step assignments to `ts` in `upload`. */
  method SelectTimestamp(exif: Option<string>, strict: string -> Option<real>, lenient: string -> Option<real>,
                         clientMs: Option<int>) returns (ts: Option<real>)
    ensures ts == Precedence(exif, strict, lenient, clientMs)
  {
    ts := None;
    if exif.Some? {
      var parsed := strict(exif.value);
      if parsed.Some? {
        ts := parsed;
      } else {
        var guessed := lenient(exif.value);
        if guessed.Some? {
          ts := guessed;
        }
      }
    }
    if ts.None? && clientMs.Some? {
      ts := Some(clientMs.value as real / MillisPerSecond);
    }
  }

  /**
   * One entry of the `files` form field: its file name (empty for an empty entry, which is
   * falsy), its EXIF `Image DateTime` text, and whether PIL can open it.
   */
  datatype UploadFile = UploadFile(filename: string, exif: Option<string>, isImage: bool)

  /** The two folders and the (access, modification) times `os.utime` set. */
  datatype Disk = Disk(images: set<string>, thumbs: set<string>, times: map<string, (real, real)>)

  /** The names of the non-empty entries. */
  function Names(files: seq<UploadFile>): (r: set<string>)
    ensures forall x :: x in r <==> exists i :: 0 <= i < |files| && files[i].filename == x && x != ""
  {
    set i | 0 <= i < |files| && files[i].filename != "" :: files[i].filename
  }

  /** The client value, read with `int(...)`, for a file name. */
  function ClientValue(client: map<string, int>, name: string): Option<int> {
    if name in client then Some(client[name]) else None
  }

  /** The body of `upload`'s loop for one file up to the thumbnail: save it (a new file time), then set both times when there is one. */
  function SaveFile(d: Disk, name: string, ts: Option<real>): (r: Disk)
    ensures r.images == d.images + {name} && r.thumbs == d.thumbs
    ensures ts.Some? ==> name in r.times && r.times[name] == (ts.value, ts.value)
    ensures ts.None? ==> name !in r.times
    ensures forall k :: k != name ==> (k in r.times <==> k in d.times) && (k in r.times ==> r.times[k] == d.times[k])
  {
    d.(images := d.images + {name},
       times := if ts.Some? then d.times[name := (ts.value, ts.value)] else d.times - {name})
  }

  /** An entry that ends the upload: a named file that PIL cannot open. */
  predicate Fails(f: UploadFile) {
    f.filename != "" && !f.isImage
  }

  /** The index of the first entry that fails, or the number of entries when none does. */
  function FirstFailure(files: seq<UploadFile>): (k: nat)
    ensures k <= |files|
    ensures forall j :: 0 <= j < k ==> !Fails(files[j])
    ensures k < |files| ==> Fails(files[k])
  {
    if files == [] || Fails(files[0]) then 0 else 1 + FirstFailure(files[1..])
  }

  /** How many entries `upload` reads: all of them, or up to and including the one that fails. */
  function Processed(files: seq<UploadFile>): (n: nat)
    ensures n <= |files|
    ensures n == |files| || n == FirstFailure(files) + 1
  {
    if FirstFailure(files) < |files| then FirstFailure(files) + 1 else |files|
  }

  /** The name of an entry, as a set: empty for an empty entry. */
  function NameOf(f: UploadFile): set<string> {
    if f.filename != "" then {f.filename} else {}
  }

  /** The names among the first `n` entries are the first entry's name, if any, and the names after it. */
  lemma NamesFirst(files: seq<UploadFile>, n: int)
    requires 1 <= n <= |files|
    ensures Names(files[..n]) == Names(files[1..][..n - 1]) + NameOf(files[0])
  {
    var a, b := files[..n], files[1..][..n - 1];
    assert forall i :: 1 <= i < n ==> a[i] == b[i - 1];
    forall x | x in Names(b)
      ensures x in Names(a)
    {
      var i :| 0 <= i < |b| && b[i].filename == x && x != "";
      assert a[i + 1] == b[i];
    }
  }

  /**
   * The loop of `upload` once admitted: each non-empty entry is saved, timed and given a
   * thumbnail of the same name. The first file PIL cannot open raises, after it was saved and
   * before its thumbnail, and the later entries are not read; its name is the second component.
   */
  function UploadFrom(d: Disk, files: seq<UploadFile>, client: map<string, int>,
                      strict: string -> Option<real>, lenient: string -> Option<real>): (r: (Disk, Option<string>))
    ensures d.images <= r.0.images <= d.images + Names(files)
    ensures d.thumbs <= r.0.thumbs <= d.thumbs + Names(files)
    ensures r.1.None? ==> r.0.images == d.images + Names(files) && r.0.thumbs == d.thumbs + Names(files)
    ensures r.1.Some? ==> r.1.value in Names(files) && r.1.value in r.0.images
    decreases |files|
  {
    if files == [] then (d, None)
    else
      var f := files[0];
      assert forall x :: x in Names(files) <==> x in Names(files[1..]) || (x == f.filename && x != "");
      if f.filename == "" then UploadFrom(d, files[1..], client, strict, lenient)
      else
        var ts := Precedence(f.exif, strict, lenient, ClientValue(client, f.filename));
        var saved := SaveFile(d, f.filename, ts);
        if !f.isImage then (saved, Some(f.filename))
        else UploadFrom(saved.(thumbs := saved.thumbs + {f.filename}), files[1..], client, strict, lenient)
  }

  /** The time an entry's file is given: from its EXIF text, else from the client, else none. */
  function EntryTime(f: UploadFile, client: map<string, int>,
                     strict: string -> Option<real>, lenient: string -> Option<real>): Option<real>
  {
    Precedence(f.exif, strict, lenient, ClientValue(client, f.filename))
  }

  /** `times` holds the stamp `ts` for `name`, or no stamp when `ts` is `None`. */
  predicate Stamped(times: map<string, (real, real)>, name: string, ts: Option<real>) {
    if ts.Some? then name in times && times[name] == (ts.value, ts.value) else name !in times
  }

  /** `after` has the same stamp for `name` as `before`, or none in both. */
  predicate Kept(before: map<string, (real, real)>, after: map<string, (real, real)>, name: string) {
    (name in after <==> name in before) && (name in before ==> after[name] == before[name])
  }

  /** The folders after a non-empty entry that opened: saved, timed and given a thumbnail. */
  function AfterEntry(d: Disk, f: UploadFile, client: map<string, int>,
                      strict: string -> Option<real>, lenient: string -> Option<real>): (r: Disk)
    ensures r.images == d.images + NameOf(f) && r.thumbs == d.thumbs + NameOf(f)
    ensures f.filename != "" ==> Stamped(r.times, f.filename, EntryTime(f, client, strict, lenient))
    ensures forall k :: k !in NameOf(f) ==> Kept(d.times, r.times, k)
  {
    if f.filename == "" then d
    else
      var saved := SaveFile(d, f.filename, EntryTime(f, client, strict, lenient));
      saved.(thumbs := saved.thumbs + {f.filename})
  }

  lemma UploadFromStep(d: Disk, files: seq<UploadFile>, client: map<string, int>,
                       strict: string -> Option<real>, lenient: string -> Option<real>)
    requires files != [] && !Fails(files[0])
    ensures UploadFrom(d, files, client, strict, lenient)
            == UploadFrom(AfterEntry(d, files[0], client, strict, lenient), files[1..], client, strict, lenient)
  {
  }

  /** Adding a set in one step or in two gives the same union. */
  lemma UnionStep(r: set<string>, d: set<string>, d': set<string>, n: set<string>, m: set<string>, x: set<string>)
    requires r == d' + n && d' == d + x && m == n + x
    ensures r == d + m
  {
  }

  lemma ProcessedStep(files: seq<UploadFile>)
    requires files != [] && !Fails(files[0])
    ensures FirstFailure(files) == 1 + FirstFailure(files[1..])
    ensures Processed(files) == 1 + Processed(files[1..])
  {
  }

  /** An upload reports the first entry that fails, or nothing when none does. */
  lemma {:induction false} UploadFromReports(d: Disk, files: seq<UploadFile>, client: map<string, int>,
                                             strict: string -> Option<real>, lenient: string -> Option<real>)
    ensures UploadFrom(d, files, client, strict, lenient).1
            == if FirstFailure(files) < |files| then Some(files[FirstFailure(files)].filename) else None
    decreases |files|
  {
    if files != [] && !Fails(files[0]) {
      UploadFromStep(d, files, client, strict, lenient);
      ProcessedStep(files);
      UploadFromReports(AfterEntry(d, files[0], client, strict, lenient), files[1..], client, strict, lenient);
    }
  }

  /** An upload whose first entry fails saves that entry alone. */
  lemma SavesFailingFirst(d: Disk, files: seq<UploadFile>, client: map<string, int>,
                          strict: string -> Option<real>, lenient: string -> Option<real>)
    requires files != [] && Fails(files[0])
    ensures UploadFrom(d, files, client, strict, lenient).0.images == d.images + Names(files[..Processed(files)])
  {
    assert files[1..][..0] == [];
    NamesFirst(files, 1);
  }

  /** An entry that does not fail adds its name to the names the rest saves. */
  lemma SavesStep(d: Disk, files: seq<UploadFile>, saved: set<string>, client: map<string, int>,
                  strict: string -> Option<real>, lenient: string -> Option<real>)
    requires files != [] && !Fails(files[0])
    requires saved == AfterEntry(d, files[0], client, strict, lenient).images + Names(files[1..][..Processed(files[1..])])
    ensures saved == d.images + Names(files[..Processed(files)])
  {
    var d', rest := AfterEntry(d, files[0], client, strict, lenient), files[1..];
    var p := Processed(rest);
    ProcessedStep(files);
    NamesFirst(files, p + 1);
    UnionStep(saved, d.images, d'.images, Names(rest[..p]), Names(files[..p + 1]), NameOf(files[0]));
  }

  /** The entries up to and including the first that fails are saved; the later ones are not. */
  lemma {:induction false} UploadFromSaves(d: Disk, files: seq<UploadFile>, client: map<string, int>,
                                           strict: string -> Option<real>, lenient: string -> Option<real>)
    ensures UploadFrom(d, files, client, strict, lenient).0.images == d.images + Names(files[..Processed(files)])
    decreases |files|
  {
    if files == [] {
      assert files[..0] == [];
    } else if Fails(files[0]) {
      SavesFailingFirst(d, files, client, strict, lenient);
    } else {
      var d' := AfterEntry(d, files[0], client, strict, lenient);
      UploadFromSaves(d', files[1..], client, strict, lenient);
      UploadFromStep(d, files, client, strict, lenient);
      SavesStep(d, files, UploadFrom(d', files[1..], client, strict, lenient).0.images, client, strict, lenient);
    }
  }

  /** The entries before the first that fails get thumbnails; that one and the later ones do not. */
  lemma {:induction false} UploadFromThumbs(d: Disk, files: seq<UploadFile>, client: map<string, int>,
                                            strict: string -> Option<real>, lenient: string -> Option<real>)
    ensures UploadFrom(d, files, client, strict, lenient).0.thumbs == d.thumbs + Names(files[..FirstFailure(files)])
    decreases |files|
  {
    if files == [] || Fails(files[0]) {
      assert files[..0] == [];
    } else {
      var d', rest := AfterEntry(d, files[0], client, strict, lenient), files[1..];
      var k := FirstFailure(rest);
      UploadFromStep(d, files, client, strict, lenient);
      ProcessedStep(files);
      NamesFirst(files, k + 1);
      UploadFromThumbs(d', rest, client, strict, lenient);
      UnionStep(UploadFrom(d', rest, client, strict, lenient).0.thumbs, d.thumbs, d'.thumbs,
                Names(rest[..k]), Names(files[..k + 1]), NameOf(files[0]));
    }
  }

  /** Entry `j` is the last of the first `n` entries with its name. */
  predicate LastWithName(files: seq<UploadFile>, j: int, n: int)
    requires 0 <= j < n <= |files|
  {
    forall i :: j < i < n ==> files[i].filename != files[j].filename
  }

  /**
   * The file times an upload leaves: every saved name carries the time of the last entry that
   * saved it, or no stamp when that entry had none, and every other name keeps its time.
   */
  ghost predicate TimesAfter(d: Disk, files: seq<UploadFile>, n: int, times: map<string, (real, real)>,
                             client: map<string, int>, strict: string -> Option<real>, lenient: string -> Option<real>)
    requires 0 <= n <= |files|
  {
    StampsLast(files, n, times, client, strict, lenient) && KeepsOthers(d, files, n, times)
  }

  /** Every name among the first `n` entries carries the time of its last entry there. */
  predicate StampsLast(files: seq<UploadFile>, n: int, times: map<string, (real, real)>,
                       client: map<string, int>, strict: string -> Option<real>, lenient: string -> Option<real>)
    requires 0 <= n <= |files|
  {
    forall j :: 0 <= j < n && files[j].filename != "" && LastWithName(files, j, n) ==>
      Stamped(times, files[j].filename, EntryTime(files[j], client, strict, lenient))
  }

  /** Every name not among the first `n` entries keeps the time it had on `d`. */
  ghost predicate KeepsOthers(d: Disk, files: seq<UploadFile>, n: int, times: map<string, (real, real)>)
    requires 0 <= n <= |files|
  {
    forall x :: x !in Names(files[..n]) ==> Kept(d.times, times, x)
  }

  /** An upload whose first entry fails stamps that entry alone. */
  lemma TimesFailingFirst(d: Disk, files: seq<UploadFile>, client: map<string, int>,
                          strict: string -> Option<real>, lenient: string -> Option<real>)
    requires files != [] && Fails(files[0])
    ensures TimesAfter(d, files, Processed(files), UploadFrom(d, files, client, strict, lenient).0.times, client, strict, lenient)
  {
    assert files[1..][..0] == [];
    NamesFirst(files, 1);
  }

  /** An entry that does not fail stamps its name unless a later processed entry has that name too. */
  lemma StampsStep(d: Disk, files: seq<UploadFile>, t: map<string, (real, real)>, client: map<string, int>,
                   strict: string -> Option<real>, lenient: string -> Option<real>)
    requires files != [] && !Fails(files[0])
    requires TimesAfter(AfterEntry(d, files[0], client, strict, lenient), files[1..], Processed(files[1..]), t,
                        client, strict, lenient)
    ensures StampsLast(files, Processed(files), t, client, strict, lenient)
  {
    var d', p := AfterEntry(d, files[0], client, strict, lenient), Processed(files[1..]);
    ProcessedStep(files);
    forall j | 0 <= j < p + 1 && files[j].filename != "" && LastWithName(files, j, p + 1)
      ensures Stamped(t, files[j].filename, EntryTime(files[j], client, strict, lenient))
    {
      if j == 0 {
        LastNotLater(files, p);
      } else {
        LaterLast(files, j, p);
      }
    }
  }

  /** A name that no processed entry has keeps its time through an entry that does not fail. */
  lemma KeepsStep(d: Disk, files: seq<UploadFile>, t: map<string, (real, real)>, client: map<string, int>,
                  strict: string -> Option<real>, lenient: string -> Option<real>)
    requires files != [] && !Fails(files[0])
    requires KeepsOthers(AfterEntry(d, files[0], client, strict, lenient), files[1..], Processed(files[1..]), t)
    ensures KeepsOthers(d, files, Processed(files), t)
  {
    var d', rest := AfterEntry(d, files[0], client, strict, lenient), files[1..];
    var p := Processed(rest);
    ProcessedStep(files);
    NamesFirst(files, p + 1);
    forall x | x !in Names(files[..p + 1])
      ensures Kept(d.times, t, x)
    {
      assert x !in Names(rest[..p]) && x !in NameOf(files[0]);
    }
  }

  /** The first entry is the last with its name only when no later one among the first `p + 1` has it. */
  lemma LastNotLater(files: seq<UploadFile>, p: int)
    requires 0 <= p < |files| && LastWithName(files, 0, p + 1)
    ensures files[0].filename !in Names(files[1..][..p])
  {
    forall i | 0 <= i < p
      ensures files[1..][..p][i].filename != files[0].filename
    {
      assert files[1..][..p][i] == files[i + 1];
    }
  }

  /** A later entry that is the last with its name stays so in the entries after the first. */
  lemma LaterLast(files: seq<UploadFile>, j: int, p: int)
    requires 0 < j <= p < |files| && LastWithName(files, j, p + 1)
    ensures files[1..][j - 1] == files[j] && LastWithName(files[1..], j - 1, p)
  {
    forall i | j - 1 < i < p
      ensures files[1..][i].filename != files[1..][j - 1].filename
    {
      assert files[1..][i] == files[i + 1];
    }
  }

  /** The file times an upload leaves are those `TimesAfter` describes for the entries it read. */
  lemma {:induction false} UploadFromTimes(d: Disk, files: seq<UploadFile>, client: map<string, int>,
                                           strict: string -> Option<real>, lenient: string -> Option<real>)
    ensures TimesAfter(d, files, Processed(files), UploadFrom(d, files, client, strict, lenient).0.times, client, strict, lenient)
    decreases |files|
  {
    if files == [] {
      assert files[..0] == [];
    } else if Fails(files[0]) {
      TimesFailingFirst(d, files, client, strict, lenient);
    } else {
      var d' := AfterEntry(d, files[0], client, strict, lenient);
      UploadFromTimes(d', files[1..], client, strict, lenient);
      UploadFromStep(d, files, client, strict, lenient);
      var t := UploadFrom(d', files[1..], client, strict, lenient).0.times;
      StampsStep(d, files, t, client, strict, lenient);
      KeepsStep(d, files, t, client, strict, lenient);
    }
  }

  /** An upload list has at most as many names as entries. */
  lemma {:induction false} NamesBound(files: seq<UploadFile>)
    ensures |Names(files)| <= |files|
    decreases |files|
  {
    if files != [] {
      NamesBound(files[1..]);
      var f := files[0];
      if f.filename == "" {
        assert Names(files) == Names(files[1..]);
      } else {
        assert Names(files) == Names(files[1..]) + {f.filename};
      }
    }
  }

  /** Empty entries are skipped: leaving them out changes nothing. */
  lemma {:induction false} EmptyEntriesSkipped(d: Disk, files: seq<UploadFile>, i: int, client: map<string, int>,
                                               strict: string -> Option<real>, lenient: string -> Option<real>)
    requires 0 <= i < |files| && files[i].filename == ""
    ensures UploadFrom(d, files, client, strict, lenient)
            == UploadFrom(d, files[..i] + files[i + 1..], client, strict, lenient)
    decreases i
  {
    var rest := files[..i] + files[i + 1..];
    if i == 0 {
      assert rest == files[1..];
    } else {
      assert rest[0] == files[0] && rest[1..] == files[1..][..i - 1] + files[1..][i..];
      var f := files[0];
      if f.filename == "" {
        EmptyEntriesSkipped(d, files[1..], i - 1, client, strict, lenient);
      } else if f.isImage {
        var ts := Precedence(f.exif, strict, lenient, ClientValue(client, f.filename));
        var saved := SaveFile(d, f.filename, ts);
        EmptyEntriesSkipped(saved.(thumbs := saved.thumbs + {f.filename}), files[1..], i - 1, client, strict, lenient);
      }
    }
  }

  /** What `upload` answers. */
  datatype UploadOutcome = Uploaded | LimitExceeded | Failed(filename: string)

  // ---------------------------------------------------------------------------------------
  // The caption table

  /** `IMG_DESCR.pop(filename, None)`: a missing key is not an error. */
  function Deleted(table: map<string, string>, filename: string): (r: map<string, string>)
    ensures filename !in r
    ensures forall k :: k != filename ==> (k in r <==> k in table) && (k in r ==> r[k] == table[k])
    ensures filename !in table ==> r == table
  {
    table - {filename}
  }

  /** The table edit of `rename`: a name that strips to nothing leaves the table alone; otherwise it is stored stripped. */
  function Renamed(table: map<string, string>, filename: string, newname: string): (r: map<string, string>)
    ensures Strip(newname) == "" ==> r == table
    ensures Strip(newname) != "" ==> filename in r && r[filename] == Strip(newname)
    ensures forall k :: k != filename ==> (k in r <==> k in table) && (k in r ==> r[k] == table[k])
  {
    var name := Strip(newname);
    if name != "" then table[filename := name] else table
  }

  /** A name made only of whitespace changes nothing. */
  lemma RenameBlankIsNoop(table: map<string, string>, filename: string, newname: string)
    requires forall i :: 0 <= i < |newname| ==> IsSpace(newname[i])
    ensures Renamed(table, filename, newname) == table
  {
    StripEmptyIffBlank(newname);
  }

  /** A stored name has no whitespace at its ends, so renaming to it again changes nothing. */
  lemma RenameIdempotent(table: map<string, string>, filename: string, newname: string)
    ensures var t := Renamed(table, filename, newname);
            Strip(newname) != "" ==> Renamed(t, filename, t[filename]) == t
  {
  }

  /** In the edited table, a rename makes the new name the caption; a delete makes it the file name. */
  lemma CaptionAfterEdit(table: map<string, string>, filename: string, newname: string)
    ensures CaptionFor(Renamed(table, filename, newname), filename)
            == if Strip(newname) != "" then Strip(newname) else CaptionFor(table, filename)
    ensures CaptionFor(Deleted(table, filename), filename) == filename
  {
  }

  // ---------------------------------------------------------------------------------------
  // The server

  class Server {
    /** `MAX_IMAGES` */
    const maxImages: int
    var disk: Disk
    /** `IMG_DESCR` in memory. */
    var descr: map<string, string>
    /** The caption file as last written. */
    var saved: map<string, string>

    constructor (maxImages: int, disk: Disk, descrFile: map<string, string>)
      ensures this.maxImages == maxImages && this.disk == disk && descr == descrFile && saved == descrFile
    {
      this.maxImages := maxImages;
      this.disk := disk;
      descr := descrFile;
      saved := descrFile;
    }

    /**
     * `upload`: refused before anything is saved when the limit would be passed; otherwise the
     * entries are processed in order. An admitted upload keeps the folder within the limit.
     */
    method Upload(files: seq<UploadFile>, client: map<string, int>,
                  strict: string -> Option<real>, lenient: string -> Option<real>) returns (outcome: UploadOutcome)
      modifies this
      ensures outcome == LimitExceeded <==> !Admitted(|old(disk).images|, |files|, maxImages)
      ensures outcome == LimitExceeded ==> disk == old(disk)
      ensures outcome != LimitExceeded ==>
                var (d, failed) := UploadFrom(old(disk), files, client, strict, lenient);
                disk == d && (outcome == Uploaded <==> failed.None?) && (outcome.Failed? ==> failed == Some(outcome.filename))
      ensures outcome != LimitExceeded ==> |disk.images| <= maxImages
      ensures descr == old(descr) && saved == old(saved)
    {
      if |disk.images| >= maxImages || |disk.images| + |files| > maxImages {
        return LimitExceeded;
      }
      ghost var start := disk;
      var i := 0;
      while i < |files|
        invariant 0 <= i <= |files|
        invariant UploadFrom(disk, files[i..], client, strict, lenient) == UploadFrom(start, files, client, strict, lenient)
        invariant descr == old(descr) && saved == old(saved)
      {
        var file := files[i];
        assert files[i..][0] == file && files[i..][1..] == files[i + 1..];
        if file.filename != "" {
          var filename := file.filename;
          disk := disk.(images := disk.images + {filename});
          var ts := SelectTimestamp(file.exif, strict, lenient, ClientValue(client, filename));
          if ts.Some? {
            disk := disk.(times := disk.times[filename := (ts.value, ts.value)]);
          } else {
            disk := disk.(times := disk.times - {filename});
          }
          if !file.isImage {
            UploadBound(start, files, client, strict, lenient, maxImages);
            return Failed(filename);
          }
          disk := disk.(thumbs := disk.thumbs + {filename});
        }
        i := i + 1;
      }
      UploadBound(start, files, client, strict, lenient, maxImages);
      return Uploaded;
    }

    /**
     * `delete`: the picture is removed, then its thumbnail; only when both removals succeed is
     * the caption dropped and the table saved. A failure anywhere is swallowed: a missing
     * picture changes nothing, a missing thumbnail leaves the picture removed and the table as
     * it was, and a failed save leaves the file behind the table in memory.
     */
    method Delete(filename: string, saveOk: bool)
      modifies this
      ensures filename !in old(disk).images ==> disk == old(disk) && descr == old(descr) && saved == old(saved)
      ensures filename in old(disk).images ==>
                && disk.images == old(disk).images - {filename}
                && disk.times == old(disk).times - {filename}
                && disk.thumbs == old(disk).thumbs - {filename}
      ensures filename in old(disk).images && filename !in old(disk).thumbs ==>
                descr == old(descr) && saved == old(saved)
      ensures filename in old(disk).images && filename in old(disk).thumbs ==>
                descr == Deleted(old(descr), filename) && saved == (if saveOk then descr else old(saved))
    {
      if filename !in disk.images {
        return;
      }
      disk := disk.(images := disk.images - {filename}, times := disk.times - {filename});
      if filename !in disk.thumbs {
        return;
      }
      disk := disk.(thumbs := disk.thumbs - {filename});
      descr := Deleted(descr, filename);
      if saveOk {
        saved := descr;
      }
    }

    /**
     * `rename`: the form's `newname` (empty when absent), stripped, becomes the caption when it is
     * not empty, and the table is saved; a failed save leaves the file behind.
     */
    method Rename(filename: string, newname: Option<string>, saveOk: bool)
      modifies this
      ensures descr == Renamed(old(descr), filename, newname.GetOr(""))
      ensures saved == if Strip(newname.GetOr("")) != "" && saveOk then descr else old(saved)
      ensures disk == old(disk)
    {
      var name := Strip(newname.GetOr(""));
      if name != "" {
        descr := descr[filename := name];
        if saveOk {
          saved := descr;
        }
      }
    }
  }

  /** An admitted upload never takes the folder past the limit. */
  lemma UploadBound(d: Disk, files: seq<UploadFile>, client: map<string, int>,
                    strict: string -> Option<real>, lenient: string -> Option<real>, maxImages: int)
    requires Admitted(|d.images|, |files|, maxImages)
    ensures |UploadFrom(d, files, client, strict, lenient).0.images| <= maxImages
  {
    var r := UploadFrom(d, files, client, strict, lenient).0;
    NamesBound(files);
    SubsetCard(r.images, d.images + Names(files));
    assert |d.images + Names(files)| <= |d.images| + |Names(files)|;
  }

  lemma SubsetCard(a: set<string>, b: set<string>)
    requires a <= b
    ensures |a| <= |b|
  {
    assert b == a + (b - a);
  }
}
