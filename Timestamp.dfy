/** The `published` text of a paper: built as "<date> <time>" when a search
    result is turned into a record, and split back on whitespace when the
    record is saved, to find the file it belongs in. */
module Timestamp {

  /** Python's `str.isspace` for one character: the ASCII blanks and control
      separators, and the Unicode space characters. */
  predicate IsSpace(c: char) {
    var n := c as int;
    || 0x09 <= n <= 0x0D
    || 0x1C <= n <= 0x20
    || n == 0x85 || n == 0xA0 || n == 0x1680
    || 0x2000 <= n <= 0x200A
    || n == 0x2028 || n == 0x2029 || n == 0x202F || n == 0x205F || n == 0x3000
  }

  predicate SpaceFree(w: string) {
    forall i :: 0 <= i < |w| ==> !IsSpace(w[i])
  }

  /** The longest prefix of `s` that holds no whitespace. */
  function Word(s: string): (w: string)
    ensures |w| <= |s| && w == s[..|w|]
    ensures SpaceFree(w)
    ensures |w| < |s| ==> IsSpace(s[|w|])
  {
    if s == [] || IsSpace(s[0]) then [] else [s[0]] + Word(s[1..])
  }

  /** Python's `s.split()` with no separator: the maximal runs of
      non-whitespace characters of `s`, in order; leading, trailing and
      repeated whitespace produce no empty pieces. */
  function Split(s: string): (parts: seq<string>)
    decreases |s|
  {
    if s == [] then []
    else if IsSpace(s[0]) then Split(s[1..])
    else
      var w := Word(s);
      [w] + Split(s[|w|..])
  }

  /** The `published` text of a fetched paper (download.py:49). */
  function Published(date: string, time: string): string {
    date + " " + time
  }

  datatype Option<T> = None | Some(value: T)

  /** `date_part, time_part = published.split()`: the first of exactly two
      pieces, or None where the unpacking raises ValueError. */
  function DatePart(published: string): Option<string> {
    var parts := Split(published);
    if |parts| == 2 then Some(parts[0]) else None
  }

  /** Every piece `Split` returns is non-empty and holds no whitespace. */
  lemma {:induction false} SplitPiecesAreWords(s: string)
    ensures forall i :: 0 <= i < |Split(s)| ==> Split(s)[i] != [] && SpaceFree(Split(s)[i])
    decreases |s|
  {
    if s == [] {
    } else if IsSpace(s[0]) {
      SplitPiecesAreWords(s[1..]);
    } else {
      var w := Word(s);
      SplitPiecesAreWords(s[|w|..]);
    }
  }

  /** A whitespace-free word followed by nothing or by whitespace is read
      whole by `Word`. */
  lemma {:induction false} WordOfPrefix(w: string, rest: string)
    requires SpaceFree(w)
    requires rest == [] || IsSpace(rest[0])
    ensures Word(w + rest) == w
  {
    if w != [] {
      assert (w + rest)[1..] == w[1..] + rest;
      WordOfPrefix(w[1..], rest);
    } else {
      assert w + rest == rest;
    }
  }

  /** `Split` reads a leading word as its first piece. */
  lemma SplitLeadingWord(w: string, rest: string)
    requires w != [] && SpaceFree(w)
    requires rest == [] || IsSpace(rest[0])
    ensures Split(w + rest) == [w] + Split(rest)
  {
    WordOfPrefix(w, rest);
    assert (w + rest)[|w|..] == rest;
  }

  /** Round trip: a `published` text built from a non-empty, whitespace-free
      date and time splits back into exactly those two pieces. */
  lemma SplitPublished(date: string, time: string)
    requires date != [] && SpaceFree(date)
    requires time != [] && SpaceFree(time)
    ensures Split(Published(date, time)) == [date, time]
  {
    assert Published(date, time) == date + (" " + time);
    SplitLeadingWord(date, " " + time);
    assert (" " + time)[1..] == time;
    assert Split(" " + time) == Split(time);
    SplitLeadingWord(time, []);
    assert time + [] == time;
  }

  /** ... so saving recovers the date it was built from. */
  lemma DatePartOfPublished(date: string, time: string)
    requires date != [] && SpaceFree(date)
    requires time != [] && SpaceFree(time)
    ensures DatePart(Published(date, time)) == Some(date)
  {
    SplitPublished(date, time);
  }

  /** Conversely, a text that splits into a date and a time is, up to its
      whitespace, the text `Published` builds from them: rebuilding it gives
      back the same pieces and the same date. */
  lemma DatePartRebuilt(published: string)
    requires DatePart(published).Some?
    ensures var parts := Split(published);
      && parts[0] != [] && SpaceFree(parts[0])
      && DatePart(Published(parts[0], parts[1])) == DatePart(published)
  {
    var parts := Split(published);
    SplitPiecesAreWords(published);
    assert parts[1] != [] && SpaceFree(parts[1]);
    DatePartOfPublished(parts[0], parts[1]);
  }

  /** A non-empty text without whitespace is one piece, so it has no date
      part and saving a record with it raises; `isoformat()` output such as
      `2024-01-01T10:00:00+00:00` is such a text. */
  lemma SingleWordHasNoDatePart(s: string)
    requires s != [] && SpaceFree(s)
    ensures Split(s) == [s] && DatePart(s) == None
  {
    SplitLeadingWord(s, []);
    assert s + [] == s;
  }
}
