/** Reading one `.trashinfo` record (trashcli/trash2.py:209-237). The text is
    split on `\n` exactly as `str.split('\n')` does, and each field comes from
    the FIRST line that starts with its key; every other line is ignored. */
module Records {
  import opened Common
  import opened Paths
  import Dates
  import Percent

  const DateKey := "DeletionDate="
  const PathKey := "Path="

  /** `s.split(sep)`: never empty, no piece contains the separator. */
  function Split(s: string, sep: char): (r: seq<string>)
    ensures |r| >= 1
    ensures forall i :: 0 <= i < |r| ==> sep !in r[i]
  {
    if s == "" then [""]
    else
      var rest := Split(s[1..], sep);
      if s[0] == sep then [""] + rest
      else [[s[0]] + rest[0]] + rest[1..]
  }

  /** `sep.join(pieces)`, the inverse of `Split`. */
  function JoinWith(pieces: seq<string>, sep: char): (s: string)
    requires |pieces| >= 1
  {
    if |pieces| == 1 then pieces[0] else pieces[0] + [sep] + JoinWith(pieces[1..], sep)
  }

  lemma {:induction false} JoinSplit(s: string, sep: char)
    ensures JoinWith(Split(s, sep), sep) == s
  {
    if s != "" {
      var rest := Split(s[1..], sep);
      JoinSplit(s[1..], sep);
      if s[0] == sep {
        assert Split(s, sep)[1..] == rest;
      } else {
        var r := Split(s, sep);
        if |rest| == 1 {
          assert r == [[s[0]] + rest[0]];
        } else {
          assert r[1..] == rest[1..];
          assert JoinWith(rest, sep) == rest[0] + [sep] + JoinWith(rest[1..], sep);
        }
      }
      assert s == [s[0]] + s[1..];
    }
  }

  lemma {:induction false} SplitJoin(pieces: seq<string>, sep: char)
    requires |pieces| >= 1
    requires forall i :: 0 <= i < |pieces| ==> sep !in pieces[i]
    ensures Split(JoinWith(pieces, sep), sep) == pieces
    decreases |JoinWith(pieces, sep)|
  {
    var p := pieces[0];
    if |pieces| == 1 {
      SplitNoSeparator(p, sep);
    } else {
      var tail := JoinWith(pieces[1..], sep);
      SplitJoin(pieces[1..], sep);
      SplitPrefix(p, tail, sep);
    }
  }

  lemma {:induction false} SplitNoSeparator(p: string, sep: char)
    requires sep !in p
    ensures Split(p, sep) == [p]
  {
    if p != "" {
      SplitNoSeparator(p[1..], sep);
      assert p == [p[0]] + p[1..];
    }
  }

  /** Splitting `p + sep + t` puts `p` in front of the pieces of `t`. */
  lemma {:induction false} SplitPrefix(p: string, t: string, sep: char)
    requires sep !in p
    ensures Split(p + [sep] + t, sep) == [p] + Split(t, sep)
  {
    var s := p + [sep] + t;
    if p == "" {
      assert s[1..] == t;
    } else {
      assert s[1..] == p[1..] + [sep] + t;
      SplitPrefix(p[1..], t, sep);
      assert [p[0]] + p[1..] == p;
    }
  }

  /** The text after `key` on the first line that starts with `key`. */
  function Field(lines: seq<string>, key: string): (r: Option<string>)
    ensures r.None? <==> forall i :: 0 <= i < |lines| ==> !StartsWith(lines[i], key)
    ensures r.Some? ==> key + r.value in lines
  {
    if lines == [] then None
    else if StartsWith(lines[0], key) then
      assert lines[0] == key + lines[0][|key|..];
      Some(lines[0][|key|..])
    else
      Field(lines[1..], key)
  }

  /** Lines before the first match, and everything after it, are irrelevant. */
  lemma {:induction false} FirstMatchDecides(before: seq<string>, value: string,
                                             after: seq<string>, key: string)
    requires forall i :: 0 <= i < |before| ==> !StartsWith(before[i], key)
    ensures Field(before + [key + value] + after, key) == Some(value)
  {
    var ls := before + [key + value] + after;
    if before == [] {
      assert ls[0] == key + value;
      assert (key + value)[..|key|] == key;
      assert (key + value)[|key|..] == value;
    } else {
      assert ls[1..] == before[1..] + [key + value] + after;
      FirstMatchDecides(before[1..], value, after, key);
    }
  }

  /** The lines that start with `key`, in their order. */
  function Matching(lines: seq<string>, key: string): (m: seq<string>)
    ensures forall i :: 0 <= i < |m| ==> StartsWith(m[i], key)
  {
    if lines == [] then []
    else if StartsWith(lines[0], key) then [lines[0]] + Matching(lines[1..], key)
    else Matching(lines[1..], key)
  }

  /** Dropping every line that does not start with the key changes nothing. */
  lemma {:induction false} OnlyMatchingLinesCount(lines: seq<string>, key: string)
    ensures Field(Matching(lines, key), key) == Field(lines, key)
  {
    if lines != [] {
      OnlyMatchingLinesCount(lines[1..], key);
    }
  }

  /** What the first `DeletionDate=` line of a record yields. */
  datatype DateField = NoDate | Stamp(seconds: int) | BadDate

  /** `read_deletion_date`: None without a date line, the instant when the
      first date line is well formed, and Python's ValueError otherwise. */
  function ReadDeletionDate(contents: string): (r: DateField)
    ensures r.NoDate? <==> Field(Split(contents, '\n'), DateKey).None?
    ensures r.BadDate? <==> Field(Split(contents, '\n'), DateKey).Some?
                            && Dates.Parse(Field(Split(contents, '\n'), DateKey).value).None?
    ensures r.Stamp? ==> Field(Split(contents, '\n'), DateKey).Some?
                         && Dates.Parse(Field(Split(contents, '\n'), DateKey).value).Some?
                         && r.seconds == Dates.ToSeconds(Dates.Parse(Field(Split(contents, '\n'), DateKey).value).value)
    ensures r.Stamp? ==> 0 <= r.seconds <= Dates.MaxSeconds
  {
    match Field(Split(contents, '\n'), DateKey)
    case None => NoDate
    case Some(text) =>
      match Dates.Parse(text)
      case None => BadDate
      case Some(dt) =>
        Dates.SecondsInRange(dt);
        Stamp(Dates.ToSeconds(dt))
  }

  /** A record written with a date line is read back with that instant,
      wherever the line sits among the others. */
  lemma ReadWrittenDate(before: seq<string>, dt: Dates.DateTime, after: seq<string>)
    requires Dates.Valid(dt)
    requires forall i :: 0 <= i < |before| ==> !StartsWith(before[i], DateKey)
    requires forall i :: 0 <= i < |before| ==> '\n' !in before[i]
    requires forall i :: 0 <= i < |after| ==> '\n' !in after[i]
    ensures ReadDeletionDate(JoinWith(before + [DateKey + Dates.Format(dt)] + after, '\n'))
            == Stamp(Dates.ToSeconds(dt))
  {
    var text := Dates.Format(dt);
    Dates.ParseFormat(dt);
    StampHasNoNewline(text);
    var line := DateKey + text;
    var lines := before + [line] + after;
    forall i | 0 <= i < |lines|
      ensures '\n' !in lines[i]
    {
      if i < |before| {
        assert lines[i] == before[i];
      } else if i > |before| {
        assert lines[i] == after[i - |before| - 1];
      }
    }
    SplitJoin(lines, '\n');
    FirstMatchDecides(before, text, after, DateKey);
    assert Field(Split(JoinWith(lines, '\n'), '\n'), DateKey) == Some(text);
  }

  lemma StampHasNoNewline(text: string)
    requires Dates.Shaped(text)
    ensures '\n' !in DateKey + text
  {
    forall k | 0 <= k < |text|
      ensures text[k] != '\n'
    {
      if k != 4 && k != 7 && k != 10 && k != 13 && k != 16 {
        assert Dates.IsDigit(text[k]);
      }
    }
    assert forall k :: 0 <= k < |DateKey + text| ==>
      (DateKey + text)[k] == if k < |DateKey| then DateKey[k] else text[k - |DateKey|];
  }

  /** `read_path`: the percent-decoded value of the first `Path=` line. */
  function ReadPath(contents: string): (r: Option<string>)
    ensures r.Some? ==> exists raw :: Field(Split(contents, '\n'), PathKey) == Some(raw)
                                     && r.value == Percent.Unquote(raw)
    ensures r.None? <==> Field(Split(contents, '\n'), PathKey).None?
  {
    match Field(Split(contents, '\n'), PathKey)
    case None => None
    case Some(raw) => Some(Percent.Unquote(raw))
  }

  /** Why `original_location` raises instead of returning a path. */
  datatype LocationError = NoPathLine | RelativeWithoutVolume

  /** `TrashInfoParser.original_location`: `os.path.join(volume, path)`. In
      Python 2 that join fails on a missing path line, and on a relative path
      when the trash has no volume, since it then asks None for a suffix. */
  function OriginalLocation(contents: string, volume: Option<Path>): (r: Result<Path, LocationError>)
    ensures ReadPath(contents).None? <==> r == Err(NoPathLine)
    ensures r.Ok? && volume.Some? ==> r.value == Join(volume.value, ReadPath(contents).value)
    ensures ReadPath(contents).Some? && IsAbsolute(ReadPath(contents).value)
            ==> r == Ok(ReadPath(contents).value)
    ensures r == Err(RelativeWithoutVolume) <==>
            ReadPath(contents).Some? && !IsAbsolute(ReadPath(contents).value) && volume.None?
  {
    match ReadPath(contents)
    case None => Err(NoPathLine)
    case Some(p) =>
      if IsAbsolute(p) then Ok(p)
      else if volume.None? then Err(RelativeWithoutVolume)
      else Ok(Base(volume.value) + p)
  }
}
