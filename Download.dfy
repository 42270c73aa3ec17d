/** The paper record and the writer that appends new records to one
    JSON-lines file per publication date, skipping papers whose link is
    already stored. */
module Download {
  import opened Timestamp

  /** One paper's metadata (download.py:15-23). */
  datatype ArxivPaper = ArxivPaper(
    title: string,
    summary: string,  // the `abstract` field (`abstract` is a Dafny keyword)
    published: string,
    link: string,
    categories: seq<string>,
    primaryCategory: string)

  /** The record built from one search result; the date and the time arrive
      already formatted as `%Y-%m-%d` and `%H:%M:%S`. */
  function FetchedPaper(title: string, summary: string, date: string, time: string,
                        entryId: string, categories: seq<string>, primaryCategory: string): ArxivPaper
  {
    ArxivPaper(title, summary, Published(date, time), entryId, categories, primaryCategory)
  }

  /** One line of a stored file: either it decodes to a record (a line the
      writer produced decodes to the very record written), or `json.loads` or
      `ArxivPaper(**entry)` rejects it. */
  datatype Line = Entry(paper: ArxivPaper) | Malformed(text: string)

  /** The `data` directory: the stem `<date>` of each `data/<date>.jsonl`
      file, mapped to that file's lines. */
  type Files = map<string, seq<Line>>

  /** The lines of `data/<date>.jsonl`; a file that does not exist reads as
      empty, as opening it in append mode creates it empty. */
  function Lines(files: Files, date: string): seq<Line> {
    if date in files then files[date] else []
  }

  /** Every stored line decodes to a record. */
  predicate Readable(files: Files) {
    forall date, i :: date in files && 0 <= i < |files[date]| ==> files[date][i].Entry?
  }

  function LinksOf(lines: seq<Line>): set<string> {
    set i | 0 <= i < |lines| && lines[i].Entry? :: lines[i].paper.link
  }

  function LinksIn(files: Files, dates: set<string>): set<string> {
    set date, link | date in dates && date in files && link in LinksOf(files[date]) :: link
  }

  /** The links of every record stored in any file. */
  function StoredLinks(files: Files): set<string> {
    LinksIn(files, files.Keys)
  }

  /** No two stored records, in the same file or in different files, share
      a link. */
  predicate UniqueLinks(files: Files) {
    forall d1, i1, d2, i2 ::
      && d1 in files && 0 <= i1 < |files[d1]| && files[d1][i1].Entry?
      && d2 in files && 0 <= i2 < |files[d2]| && files[d2][i2].Entry?
      && files[d1][i1].paper.link == files[d2][i2].paper.link
      ==> d1 == d2 && i1 == i2
  }

  predicate Splittable(p: ArxivPaper) {
    DatePart(p.published).Some?
  }

  /** The stem of the file a paper is saved in. */
  function DateKey(p: ArxivPaper): string
    requires Splittable(p)
  {
    DatePart(p.published).value
  }

  predicate AllSplittable(ps: seq<ArxivPaper>) {
    forall i :: 0 <= i < |ps| ==> Splittable(ps[i])
  }

  /** One turn of the write loop, against the link set `seen` taken before
      the loop. */
  function WriteOne(files: Files, seen: set<string>, p: ArxivPaper): Files
    requires Splittable(p)
  {
    if p.link in seen then files
    else files[DateKey(p) := Lines(files, DateKey(p)) + [Entry(p)]]
  }

  /** The whole write loop over `ps`, in order; `seen` never grows. */
  function WriteAll(files: Files, seen: set<string>, ps: seq<ArxivPaper>): Files
    requires AllSplittable(ps)
    decreases |ps|
  {
    if ps == [] then files
    else WriteOne(WriteAll(files, seen, ps[..|ps| - 1]), seen, ps[|ps| - 1])
  }

  /** The independent description of what the loop adds to one file: the
      papers of `ps` whose link is not in `seen` and whose date part is
      `date`, as lines, in input order. */
  function NewLines(seen: set<string>, ps: seq<ArxivPaper>, date: string): seq<Line>
    requires AllSplittable(ps)
    decreases |ps|
  {
    if ps == [] then []
    else
      var p := ps[|ps| - 1];
      NewLines(seen, ps[..|ps| - 1], date)
        + (if p.link !in seen && DateKey(p) == date then [Entry(p)] else [])
  }

  /** The index of the first paper whose `published` text does not unpack
      into a date and a time, or `|ps|` when there is none. */
  function FirstUnsplittable(ps: seq<ArxivPaper>): (n: nat)
    ensures n <= |ps|
    ensures forall i :: 0 <= i < n ==> Splittable(ps[i])
    ensures n < |ps| ==> !Splittable(ps[n])
  {
    if ps == [] || !Splittable(ps[0]) then 0 else 1 + FirstUnsplittable(ps[1..])
  }

  datatype ScanResult = Links(links: set<string>) | Unreadable(date: string)

  /** `Saved` when the function returns; `CorruptStore` when the scan of the
      stored lines raises; `BadTimestamp` when the paper at `index` raises
      at the split of its `published` text. */
  datatype SaveResult = Saved | CorruptStore | BadTimestamp(index: nat, published: string)

  /** What one call of `save_to_jsonl` does to the directory, and how it ends. */
  function SaveSpec(files: Files, papers: seq<ArxivPaper>): (Files, SaveResult) {
    if !Readable(files) then (files, CorruptStore)
    else
      var n := FirstUnsplittable(papers);
      var written := WriteAll(files, StoredLinks(files), papers[..n]);
      if n < |papers| then (written, BadTimestamp(n, papers[n].published))
      else (written, Saved)
  }

  /** The directory, whose files `save_to_jsonl` reads and appends to. */
  class DataDir {
    var files: Files

    constructor (files: Files)
      ensures this.files == files
    {
      this.files := files;
    }

    /** The first phase: read every line of every file and collect the links,
        in whatever order the files are listed; a line that does not decode
        stops the scan. */
    method ExistingLinks() returns (r: ScanResult)
      ensures r.Links? <==> Readable(files)
      ensures r.Links? ==> r.links == StoredLinks(files)
      ensures r.Unreadable? ==>
        r.date in files && exists i :: 0 <= i < |files[r.date]| && files[r.date][i].Malformed?
    {
      var links: set<string> := {};
      var todo := files.Keys;
      while todo != {}
        invariant todo <= files.Keys
        invariant forall d, i :: d in files.Keys - todo && 0 <= i < |files[d]| ==> files[d][i].Entry?
        invariant links == LinksIn(files, files.Keys - todo)
        decreases todo
      {
        var date :| date in todo;
        var lines := files[date];
        for j := 0 to |lines|
          invariant forall i :: 0 <= i < j ==> lines[i].Entry?
          invariant links == LinksIn(files, files.Keys - todo) + LinksOf(lines[..j])
        {
          match lines[j]
          case Malformed(_) =>
            return Unreadable(date);
          case Entry(paper) =>
            LinksOfSnoc(lines, j);
            links := links + {paper.link};
        }
        assert lines[..|lines|] == lines;
        LinksInAdd(files, files.Keys - todo, date);
        assert files.Keys - (todo - {date}) == (files.Keys - todo) + {date};
        todo := todo - {date};
      }
      assert files.Keys - todo == files.Keys;
      return Links(links);
    }

    /** `save_to_jsonl(papers)`: the scan, then the write loop in input order,
        appending each paper whose link the scan did not find to the file of
        its date. */
    method SaveToJsonl(papers: seq<ArxivPaper>) returns (r: SaveResult)
      modifies this
      ensures (files, r) == SaveSpec(old(files), papers)
    {
      var scan := ExistingLinks();
      if scan.Unreadable? {
        return CorruptStore;
      }
      var seen := scan.links;
      for i := 0 to |papers|
        invariant forall j :: 0 <= j < i ==> Splittable(papers[j])
        invariant files == WriteAll(old(files), seen, papers[..i])
      {
        var date := DatePart(papers[i].published);
        if date.None? {
          return BadTimestamp(i, papers[i].published);
        }
        if papers[i].link !in seen {
          files := files[date.value := Lines(files, date.value) + [Entry(papers[i])]];
        }
        assert papers[..i + 1][..i] == papers[..i];
      }
      assert papers[..|papers|] == papers;
      return Saved;
    }
  }

  lemma LinksOfSnoc(lines: seq<Line>, j: nat)
    requires j < |lines| && lines[j].Entry?
    ensures LinksOf(lines[..j + 1]) == LinksOf(lines[..j]) + {lines[j].paper.link}
  {
  }

  lemma LinksInAdd(files: Files, dates: set<string>, date: string)
    requires date in files
    ensures LinksIn(files, dates + {date}) == LinksIn(files, dates) + LinksOf(files[date])
  {
  }
}
