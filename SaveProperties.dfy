/** What `save_to_jsonl` guarantees about the directory it writes to, proved
    about the write loop `WriteAll` and the whole call `SaveSpec`. */
module SaveProperties {
  import opened Timestamp
  import opened Download

  /** Every file ends as its old lines followed by exactly the new lines
      `NewLines` describes; a file exists afterwards when it existed before
      or something was appended to it. */
  lemma {:induction false} WriteAllLines(files: Files, seen: set<string>, ps: seq<ArxivPaper>, date: string)
    requires AllSplittable(ps)
    ensures Lines(WriteAll(files, seen, ps), date) == Lines(files, date) + NewLines(seen, ps, date)
    ensures date in WriteAll(files, seen, ps) <==> date in files || NewLines(seen, ps, date) != []
    decreases |ps|
  {
    if ps == [] {
      assert Lines(files, date) + [] == Lines(files, date);
    } else {
      WriteAllLines(files, seen, ps[..|ps| - 1], date);
    }
  }

  /** Each new line is a paper of the input whose link was not seen and whose
      date part names the file. */
  lemma {:induction false} NewLinesAreUnseenAndDated(seen: set<string>, ps: seq<ArxivPaper>, date: string)
    requires AllSplittable(ps)
    ensures forall l :: l in NewLines(seen, ps, date) ==>
      && l.Entry? && l.paper in ps && l.paper.link !in seen
      && Splittable(l.paper) && DateKey(l.paper) == date
    decreases |ps|
  {
    if ps != [] {
      var init := ps[..|ps| - 1];
      NewLinesAreUnseenAndDated(seen, init, date);
      forall l | l in NewLines(seen, ps, date)
        ensures l.Entry? && l.paper in ps && l.paper.link !in seen
        ensures Splittable(l.paper) && DateKey(l.paper) == date
      {
        if l in NewLines(seen, init, date) {
          assert l.paper in init;
        } else {
          assert l == Entry(ps[|ps| - 1]);
        }
      }
    }
  }

  /** The new lines of a concatenated input are those of its first part
      followed by those of its second part: input order is kept. */
  lemma {:induction false} NewLinesConcat(seen: set<string>, ps: seq<ArxivPaper>, qs: seq<ArxivPaper>, date: string)
    requires AllSplittable(ps) && AllSplittable(qs)
    ensures AllSplittable(ps + qs)
    ensures NewLines(seen, ps + qs, date) == NewLines(seen, ps, date) + NewLines(seen, qs, date)
    decreases |qs|
  {
    if qs == [] {
      assert ps + qs == ps;
    } else {
      var init := qs[..|qs| - 1];
      NewLinesConcat(seen, ps, init, date);
      assert (ps + qs)[..|ps + qs| - 1] == ps + init;
      assert (ps + qs)[|ps + qs| - 1] == qs[|qs| - 1];
    }
  }

  /** A paper whose link was not seen is among the new lines of the file
      named by its date part. */
  lemma {:induction false} UnseenPaperIsNew(seen: set<string>, ps: seq<ArxivPaper>, i: nat)
    requires AllSplittable(ps) && i < |ps| && ps[i].link !in seen
    ensures Entry(ps[i]) in NewLines(seen, ps, DateKey(ps[i]))
  {
    var pre, post := ps[..i + 1], ps[i + 1..];
    assert pre[..i] == ps[..i] && pre[i] == ps[i];
    assert Entry(ps[i]) in NewLines(seen, pre, DateKey(ps[i]));
    NewLinesConcat(seen, pre, post, DateKey(ps[i]));
    assert pre + post == ps;
  }

  /** Links already stored are not written again: no line the loop appends,
      to any file, carries a link of `seen`. */
  lemma {:induction false} SeenLinksNotWritten(files: Files, seen: set<string>, ps: seq<ArxivPaper>, date: string)
    requires AllSplittable(ps)
    ensures var before, after := Lines(files, date), Lines(WriteAll(files, seen, ps), date);
      && |before| <= |after|
      && forall l :: l in after[|before|..] ==> l.Entry? && l.paper.link !in seen
  {
    WriteAllLines(files, seen, ps, date);
    NewLinesAreUnseenAndDated(seen, ps, date);
    var before := Lines(files, date);
    assert Lines(WriteAll(files, seen, ps), date)[|before|..] == NewLines(seen, ps, date);
  }

  /** A paper whose link was not seen is appended to the file of its date,
      and to no other file. */
  lemma UnseenPaperGoesToItsDate(files: Files, seen: set<string>, ps: seq<ArxivPaper>, i: nat, date: string)
    requires AllSplittable(ps) && i < |ps| && ps[i].link !in seen
    ensures var before, after := Lines(files, date), Lines(WriteAll(files, seen, ps), date);
      && |before| <= |after|
      && (Entry(ps[i]) in after[|before|..] <==> date == DateKey(ps[i]))
  {
    WriteAllLines(files, seen, ps, date);
    NewLinesAreUnseenAndDated(seen, ps, date);
    var before := Lines(files, date);
    assert Lines(WriteAll(files, seen, ps), date)[|before|..] == NewLines(seen, ps, date);
    if date == DateKey(ps[i]) {
      UnseenPaperIsNew(seen, ps, i);
    }
  }

  /** The directory only grows by appending: every file that existed still
      exists and starts with its previous lines. */
  lemma {:induction false} AppendOnly(files: Files, seen: set<string>, ps: seq<ArxivPaper>)
    requires AllSplittable(ps)
    ensures files.Keys <= WriteAll(files, seen, ps).Keys
    ensures forall date :: date in files ==> files[date] <= WriteAll(files, seen, ps)[date]
  {
    forall date | date in files
      ensures date in WriteAll(files, seen, ps) && files[date] <= WriteAll(files, seen, ps)[date]
    {
      WriteAllLines(files, seen, ps, date);
    }
  }

  /** A file whose date is not the date of any paper with an unseen link is
      left exactly as it was (and is not created). */
  lemma {:induction false} UntouchedFileUnchanged(files: Files, seen: set<string>, ps: seq<ArxivPaper>, date: string)
    requires AllSplittable(ps)
    requires forall i :: 0 <= i < |ps| && ps[i].link !in seen ==> DateKey(ps[i]) != date
    ensures date in WriteAll(files, seen, ps) <==> date in files
    ensures Lines(WriteAll(files, seen, ps), date) == Lines(files, date)
  {
    WriteAllLines(files, seen, ps, date);
    NoNewLines(seen, ps, date);
    assert Lines(files, date) + [] == Lines(files, date);
  }

  lemma {:induction false} NoNewLines(seen: set<string>, ps: seq<ArxivPaper>, date: string)
    requires AllSplittable(ps)
    requires forall i :: 0 <= i < |ps| && ps[i].link !in seen ==> DateKey(ps[i]) != date
    ensures NewLines(seen, ps, date) == []
    decreases |ps|
  {
    if ps != [] {
      NoNewLines(seen, ps[..|ps| - 1], date);
    }
  }

  /** New papers for one date appear in its file in input order: of two
      unseen papers at positions i < j with the same date, the line of the
      first comes before the line of the second. */
  lemma NewPapersKeepInputOrder(seen: set<string>, ps: seq<ArxivPaper>, i: nat, j: nat)
    requires AllSplittable(ps) && i < j < |ps|
    requires ps[i].link !in seen && ps[j].link !in seen && DateKey(ps[i]) == DateKey(ps[j])
    ensures var lines := NewLines(seen, ps, DateKey(ps[i]));
      exists a, b :: 0 <= a < b < |lines| && lines[a] == Entry(ps[i]) && lines[b] == Entry(ps[j])
  {
    var date := DateKey(ps[i]);
    var pre, post := ps[..j], ps[j..];
    assert pre[i] == ps[i] && post[0] == ps[j];
    UnseenPaperIsNew(seen, pre, i);
    UnseenPaperIsNew(seen, post, 0);
    NewLinesConcat(seen, pre, post, date);
    assert pre + post == ps;
    var first, second := NewLines(seen, pre, date), NewLines(seen, post, date);
    var a :| 0 <= a < |first| && first[a] == Entry(ps[i]);
    var b :| 0 <= b < |second| && second[b] == Entry(ps[j]);
    var lines := NewLines(seen, ps, date);
    assert lines[a] == Entry(ps[i]) && lines[|first| + b] == Entry(ps[j]);
  }

  /** The seen set is not extended by the loop's own writes: two papers with
      the same unseen link are both appended. */
  lemma DuplicateUnseenLinksBothWritten(files: Files, seen: set<string>, p: ArxivPaper, q: ArxivPaper)
    requires Splittable(p) && Splittable(q) && DateKey(p) == DateKey(q)
    requires p.link == q.link && p.link !in seen
    ensures Lines(WriteAll(files, seen, [p, q]), DateKey(p)) == Lines(files, DateKey(p)) + [Entry(p), Entry(q)]
  {
    var date := DateKey(p);
    assert [p, q][..1] == [p];
    assert [p][..0] == [];
    assert WriteAll(files, seen, [p][..0]) == files;
    var once := WriteAll(files, seen, [p]);
    assert once == WriteOne(files, seen, p);
    assert Lines(once, date) == Lines(files, date) + [Entry(p)];
    assert WriteAll(files, seen, [p, q]) == WriteOne(once, seen, q);
  }

  /** When every link has been seen, the loop writes nothing. */
  lemma {:induction false} AllSeenWritesNothing(files: Files, seen: set<string>, ps: seq<ArxivPaper>)
    requires AllSplittable(ps)
    requires forall i :: 0 <= i < |ps| ==> ps[i].link in seen
    ensures WriteAll(files, seen, ps) == files
    decreases |ps|
  {
    if ps != [] {
      AllSeenWritesNothing(files, seen, ps[..|ps| - 1]);
    }
  }

  /** Appending records keeps every line readable. */
  lemma {:induction false} WriteAllKeepsReadable(files: Files, seen: set<string>, ps: seq<ArxivPaper>)
    requires AllSplittable(ps) && Readable(files)
    ensures Readable(WriteAll(files, seen, ps))
  {
    var after: Files := WriteAll(files, seen, ps);
    forall date: string, i: int | date in after && 0 <= i < |after[date]| ensures after[date][i].Entry? {
      WriteAllLines(files, seen, ps, date);
      NewLinesAreUnseenAndDated(seen, ps, date);
      var before := Lines(files, date);
      if i >= |before| {
        assert after[date][i] == NewLines(seen, ps, date)[i - |before|];
      }
    }
  }

  /** After the loop, every stored link is still stored, and every input
      link is either seen or now stored. */
  lemma StoredLinksAfterWrite(files: Files, seen: set<string>, ps: seq<ArxivPaper>)
    requires AllSplittable(ps)
    ensures StoredLinks(files) <= StoredLinks(WriteAll(files, seen, ps))
    ensures forall i :: 0 <= i < |ps| ==> ps[i].link in seen || ps[i].link in StoredLinks(WriteAll(files, seen, ps))
  {
    var after := WriteAll(files, seen, ps);
    AppendOnly(files, seen, ps);
    forall link | link in StoredLinks(files) ensures link in StoredLinks(after) {
      var date :| date in files && link in LinksOf(files[date]);
      var k :| 0 <= k < |files[date]| && files[date][k].Entry? && files[date][k].paper.link == link;
      assert after[date][k] == files[date][k];
      assert link in LinksOf(after[date]);
    }
    forall i | 0 <= i < |ps| && ps[i].link !in seen ensures ps[i].link in StoredLinks(after) {
      var date := DateKey(ps[i]);
      UnseenPaperIsNew(seen, ps, i);
      WriteAllLines(files, seen, ps, date);
      var lines := after[date];
      var k :| 0 <= k < |NewLines(seen, ps, date)| && NewLines(seen, ps, date)[k] == Entry(ps[i]);
      assert lines[|Lines(files, date)| + k] == Entry(ps[i]);
      assert ps[i].link in LinksOf(lines);
    }
  }

  /** Every record line after the loop is a line that was already stored
      at that place, or an input paper whose link was not seen. */
  lemma LineAfterWrite(files: Files, seen: set<string>, ps: seq<ArxivPaper>, date: string, i: nat)
    requires AllSplittable(ps)
    requires date in WriteAll(files, seen, ps) && i < |WriteAll(files, seen, ps)[date]|
    ensures var l := WriteAll(files, seen, ps)[date][i];
      || (date in files && i < |files[date]| && l == files[date][i])
      || (l.Entry? && l.paper in ps && l.paper.link !in seen)
  {
  }

  /** Appending a record whose link no stored record carries keeps the links
      unique. */
  lemma AppendKeepsLinksUnique(files: Files, date: string, p: ArxivPaper)
    requires UniqueLinks(files)
    requires forall d, i :: d in files && 0 <= i < |files[d]| && files[d][i].Entry? ==> files[d][i].paper.link != p.link
    ensures UniqueLinks(files[date := Lines(files, date) + [Entry(p)]])
  {
  }

  /** The write loop keeps stored links unique when `seen` holds every stored
      link and no two input papers share a link. */
  lemma {:induction false} WriteAllKeepsLinksUnique(files: Files, seen: set<string>, ps: seq<ArxivPaper>)
    requires AllSplittable(ps) && UniqueLinks(files) && StoredLinks(files) <= seen
    requires forall i, j :: 0 <= i < j < |ps| ==> ps[i].link != ps[j].link
    ensures UniqueLinks(WriteAll(files, seen, ps))
    decreases |ps|
  {
    if ps != [] {
      var init, p := ps[..|ps| - 1], ps[|ps| - 1];
      WriteAllKeepsLinksUnique(files, seen, init);
      var mid: Files := WriteAll(files, seen, init);
      if p.link !in seen {
        forall d: string, i: int | d in mid && 0 <= i < |mid[d]| && mid[d][i].Entry? ensures mid[d][i].paper.link != p.link {
          LineAfterWrite(files, seen, init, d, i);
          if d in files && i < |files[d]| && mid[d][i] == files[d][i] {
            assert mid[d][i].paper.link in LinksOf(files[d]);
          } else {
            var k :| 0 <= k < |init| && init[k] == mid[d][i].paper;
            assert ps[k] == init[k];
          }
        }
        AppendKeepsLinksUnique(mid, DateKey(p), p);
      }
    }
  }

  /** A save whose input repeats no link keeps every stored link unique. */
  lemma SaveKeepsLinksUnique(files: Files, papers: seq<ArxivPaper>)
    requires UniqueLinks(files)
    requires forall i, j :: 0 <= i < j < |papers| ==> papers[i].link != papers[j].link
    ensures UniqueLinks(SaveSpec(files, papers).0)
  {
    if Readable(files) {
      var n := FirstUnsplittable(papers);
      WriteAllKeepsLinksUnique(files, StoredLinks(files), papers[..n]);
    }
  }

  /** Saving the same papers a second time changes nothing and ends as the
      first call did: after a corrupt store nothing was written and the scan
      raises again; otherwise every paper the first call processed is now
      stored, and the same paper stops the loop if one did. */
  lemma SaveTwiceIsNoOp(files: Files, papers: seq<ArxivPaper>)
    ensures SaveSpec(SaveSpec(files, papers).0, papers) == SaveSpec(files, papers)
  {
    if Readable(files) {
      var n := FirstUnsplittable(papers);
      var seen := StoredLinks(files);
      var after := WriteAll(files, seen, papers[..n]);
      WriteAllKeepsReadable(files, seen, papers[..n]);
      StoredLinksAfterWrite(files, seen, papers[..n]);
      AllSeenWritesNothing(after, StoredLinks(after), papers[..n]);
    }
  }

  /** How a call ends, and what it leaves behind: the scan raises (nothing
      written) exactly when a stored line does not decode; otherwise the
      papers before the first bad `published` text are written against the
      links stored before the call, and the later ones are not processed. */
  lemma SaveOutcome(files: Files, papers: seq<ArxivPaper>, date: string)
    ensures SaveSpec(files, papers).1 == CorruptStore <==> !Readable(files)
    ensures SaveSpec(files, papers).1 == CorruptStore ==> SaveSpec(files, papers).0 == files
    ensures SaveSpec(files, papers).1 == Saved <==> Readable(files) && AllSplittable(papers)
    ensures SaveSpec(files, papers).1.BadTimestamp? ==>
      var n := SaveSpec(files, papers).1.index;
      && n < |papers| && !Splittable(papers[n]) && AllSplittable(papers[..n])
      && Lines(SaveSpec(files, papers).0, date)
           == Lines(files, date) + NewLines(StoredLinks(files), papers[..n], date)
  {
    var n := FirstUnsplittable(papers);
    if Readable(files) {
      WriteAllLines(files, StoredLinks(files), papers[..n], date);
      if n == |papers| {
        assert papers[..n] == papers;
      }
    }
  }

  /** A fetched paper, whose `published` text is built from its formatted
      date and time, is saved in the file of that date. */
  lemma FetchedPaperFiledUnderItsDate(title: string, summary: string, date: string, time: string,
                                      entryId: string, categories: seq<string>, primaryCategory: string)
    requires date != [] && SpaceFree(date) && time != [] && SpaceFree(time)
    ensures var p := FetchedPaper(title, summary, date, time, entryId, categories, primaryCategory);
      Splittable(p) && DateKey(p) == date
  {
    DatePartOfPublished(date, time);
  }

  /** One new paper with link "L1" published on 2024-01-01, saved to an empty
      directory, creates the one file `2024-01-01` holding exactly that record. */
  lemma FirstSaveCreatesDateFile()
    ensures var p := FetchedPaper("Title", "Abstract", "2024-01-01", "09:30:00", "L1", ["cs.CL"], "cs.CL");
      SaveSpec(map[], [p]) == (map["2024-01-01" := [Entry(p)]], Saved)
  {
    var p := FetchedPaper("Title", "Abstract", "2024-01-01", "09:30:00", "L1", ["cs.CL"], "cs.CL");
    var empty: Files := map[];
    assert SpaceFree("2024-01-01") && SpaceFree("09:30:00");
    FetchedPaperFiledUnderItsDate("Title", "Abstract", "2024-01-01", "09:30:00", "L1", ["cs.CL"], "cs.CL");
    assert StoredLinks(empty) == {};
    assert [p][1..] == [] && [p][..1] == [p] && [p][..0] == [];
    assert WriteAll(empty, {}, [p]) == WriteOne(empty, {}, p);
    assert Lines(empty, "2024-01-01") + [Entry(p)] == [Entry(p)];
  }
}
