/**
 * `downloadImages`: every image of the DEFAULT file group is streamed into
 * the media folder under its derived file name, with one retry; a download
 * that leaves an empty file makes the step fail. The HTTP transfers are an
 * input: what each attempt for a URL wrote, and whether it ended normally.
 */
module Download {
  import opened Xml
  import opened Doc

  /** One `getStreamFromUrl` attempt: it completed, or threw after writing some bytes. */
  datatype Transfer = Complete(size: nat) | Broken(written: nat)

  /** The transfer for a URL on attempt 0 (first try) or 1 (the retry). */
  type Fetcher = (Option<string>, nat) -> Transfer

  /** The media folder: file name to size in bytes. */
  type Folder = map<string, nat>

  datatype Outcome = Outcome(ok: bool, folder: Folder)

  /** The size the file has after its attempts, or None when the retry threw too. */
  function Stored(f: ImageName, fetch: Fetcher): Option<nat> {
    match fetch(f.url, 0)
    case Complete(size) => Some(size)
    case Broken(_) =>
      match fetch(f.url, 1)
      case Complete(size) => Some(size)
      case Broken(_) => None
  }

  /** A file counts as downloaded when an attempt completed and wrote at least one byte. */
  predicate Downloaded(f: ImageName, fetch: Fetcher) {
    var s := Stored(f, fetch);
    s.Some? && s.value > 0
  }

  /** The files in order; the first one that fails ends the run. */
  function Run(folder: Folder, files: seq<ImageName>, fetch: Fetcher): (r: Outcome)
    decreases |files|
  {
    if files == [] then Outcome(true, folder)
    else
      var f := files[0];
      match Stored(f, fetch)
      case None =>
        var w := fetch(f.url, 1).written;
        Outcome(false, folder[f.name := w])
      case Some(size) =>
        if size == 0 then Outcome(false, folder - {f.name})
        else Run(folder[f.name := size], files[1..], fetch)
  }

  /** The run succeeds exactly when every file is downloaded. */
  lemma {:induction false} RunOkIff(folder: Folder, files: seq<ImageName>, fetch: Fetcher)
    ensures Run(folder, files, fetch).ok <==> forall k :: 0 <= k < |files| ==> Downloaded(files[k], fetch)
    decreases |files|
  {
    if files != [] {
      if Stored(files[0], fetch).Some? && Stored(files[0], fetch).value > 0 {
        RunOkIff(folder[files[0].name := Stored(files[0], fetch).value], files[1..], fetch);
      }
      assert forall k :: 1 <= k < |files| ==> files[k] == files[1..][k - 1];
    }
  }

  /** A successful run leaves every image in the folder, none of them empty, and keeps what was there. */
  lemma {:induction false} RunOkStored(folder: Folder, files: seq<ImageName>, fetch: Fetcher)
    requires Run(folder, files, fetch).ok
    ensures var out := Run(folder, files, fetch).folder;
            (forall k :: 0 <= k < |files| ==> files[k].name in out && out[files[k].name] > 0)
            && (forall name :: name in folder && folder[name] > 0 ==> name in out && out[name] > 0)
    decreases |files|
  {
    if files != [] {
      var f := files[0];
      var size := Stored(f, fetch).value;
      var next := folder[f.name := size];
      RunOkStored(next, files[1..], fetch);
      assert forall k :: 1 <= k < |files| ==> files[k] == files[1..][k - 1];
      assert f.name in next && next[f.name] > 0;
    }
  }

  /** An image that arrives empty is deleted and stops the run. */
  lemma RunEmptyDeleted(folder: Folder, files: seq<ImageName>, fetch: Fetcher)
    requires files != [] && Stored(files[0], fetch) == Some(0)
    ensures !Run(folder, files, fetch).ok && files[0].name !in Run(folder, files, fetch).folder
  {
  }
}
