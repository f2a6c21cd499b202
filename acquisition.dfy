/** Download bookkeeping of the acquisition orchestrator: the list of PDF
    paths the bot keeps (`self.filepaths["pdf"]`), the paths
    `MyBot.__download_files` appends to it, and the bounded wait of
    `MyBot.__wait_download`. */
module Acquisition {
  import opened Wrappers
  import opened Normalize

  /** At most this many three-second sleeps per file: a 60-second ceiling. */
  const MaxPolls: nat := 20
  const PollSeconds: nat := 3

  /** What the file system reports about a path at one check. */
  datatype FileStatus = Missing | Present(size: nat)

  /** The wait's loop condition on the file: absent, or present but empty. */
  predicate Pending(s: FileStatus)
  {
    s.Missing? || (s.Present? && s.size == 0)
  }

  /** The file status observed at the `k`-th check of a path; clocks and
      the real file system are outside the model. */
  type Observer = (string, nat) -> FileStatus

  /** `n` sleeps is what the wait takes on `path`: the file was pending at
      each earlier check, and unless the budget ran out it is there now. */
  ghost predicate WaitedFor(observe: Observer, path: string, n: nat)
  {
    && n <= MaxPolls
    && (forall k :: 0 <= k < n ==> Pending(observe(path, k)))
    && (n < MaxPolls ==> !Pending(observe(path, n)))
  }

  /** `MyBot.__wait_download`: poll until the file exists with a non-zero
      size or the countdown of 20 runs out; returns the number of sleeps. */
  method WaitDownload(path: string, observe: Observer) returns (polls: nat)
    ensures WaitedFor(observe, path, polls)
    ensures polls * PollSeconds <= 60
  {
    var countdown: int := MaxPolls;
    polls := 0;
    while Pending(observe(path, polls)) && countdown > 0
      invariant 0 <= countdown && countdown + polls == MaxPolls
      invariant forall k :: 0 <= k < polls ==> Pending(observe(path, k))
    {
      polls := polls + 1;
      countdown := countdown - 1;
    }
  }

  /** The path a link's PDF is saved under: `{dirpath}/{text}.pdf`. */
  function PdfPath(dirpath: string, name: string): (path: string)
    ensures |path| == |dirpath| + |name| + 5
    ensures path[..|dirpath| + 1] == dirpath + "/" && path[|path| - 4..] == ".pdf"
  {
    dirpath + "/" + name + ".pdf"
  }

  /** The link text a saved PDF's path was made from, if it is one. */
  function PdfName(dirpath: string, path: string): Option<string>
  {
    var head := dirpath + "/";
    if |path| >= |head| + 4 && path[..|head|] == head && path[|path| - 4..] == ".pdf"
    then Some(path[|head|..|path| - 4])
    else None
  }

  /** Every saved path gives back the link text it was made from. */
  lemma PdfNameOfPath(dirpath: string, name: string)
    ensures PdfName(dirpath, PdfPath(dirpath, name)) == Some(name)
  {
    var path := PdfPath(dirpath, name);
    assert path == (dirpath + "/") + name + ".pdf";
    assert path[..|dirpath| + 1] == dirpath + "/";
    assert path[|path| - 4..] == ".pdf";
    assert path[|dirpath| + 1..|path| - 4] == name;
  }

  /** Distinct link texts are saved under distinct paths. */
  lemma PdfPathInjective(dirpath: string, name: string, name': string)
    requires PdfPath(dirpath, name) == PdfPath(dirpath, name')
    ensures name == name'
  {
    PdfNameOfPath(dirpath, name);
    PdfNameOfPath(dirpath, name');
  }

  function PdfPaths(dirpath: string, anchors: seq<WebElement>): (paths: seq<string>)
    ensures |paths| == |anchors|
  {
    seq(|anchors|, i requires 0 <= i < |anchors| => PdfPath(dirpath, anchors[i].text))
  }

  /** The bot's file bookkeeping. */
  class Bot {
    const dirpath: string
    const excelPath: string
    const target: string
    var pdfPaths: seq<string>

    /** `MyBot.__init__`, with the output directory and the configured
        target given rather than created and read from `settings.json`. */
    constructor (dirpath: string, target: string)
      ensures this.dirpath == dirpath && this.target == target
      ensures excelPath == dirpath + "/Agencies.xlsx"
      ensures pdfPaths == []
    {
      this.dirpath := dirpath;
      this.target := target;
      excelPath := dirpath + "/Agencies.xlsx";
      pdfPaths := [];
    }

    /** `MyBot.__download_files`: one link and one path per anchor, in
        anchor order; then, for each link, the wait on the path at the same
        index of the bot's list. Opening the link and clicking the download
        button are browser actions outside the model. */
    method DownloadFiles(anchors: seq<WebElement>, observe: Observer)
      returns (links: seq<string>, polls: seq<nat>)
      modifies this
      ensures pdfPaths == old(pdfPaths) + PdfPaths(dirpath, anchors)
      ensures |links| == |anchors| && forall i :: 0 <= i < |anchors| ==> links[i] == anchors[i].href
      ensures |polls| == |links|
      ensures forall i :: 0 <= i < |polls| ==> WaitedFor(observe, pdfPaths[i], polls[i])
    {
      links := [];
      for i := 0 to |anchors|
        invariant |links| == i
        invariant forall k :: 0 <= k < i ==> links[k] == anchors[k].href
        invariant pdfPaths == old(pdfPaths) + PdfPaths(dirpath, anchors[..i])
      {
        var a := anchors[i];
        links := links + [a.href];
        var filename := a.text;
        pdfPaths := pdfPaths + [dirpath + "/" + filename + ".pdf"];
        assert PdfPaths(dirpath, anchors[..i + 1]) == PdfPaths(dirpath, anchors[..i]) + [PdfPath(dirpath, a.text)];
      }
      assert anchors[..|anchors|] == anchors;
      polls := [];
      for i := 0 to |links|
        invariant |polls| == i
        invariant pdfPaths == old(pdfPaths) + PdfPaths(dirpath, anchors)
        invariant forall k :: 0 <= k < i ==> WaitedFor(observe, pdfPaths[k], polls[k])
      {
        var n := WaitDownload(pdfPaths[i], observe);
        polls := polls + [n];
      }
    }
  }
}
