/** The shape both flat stores share: a header line, then one line per
    record.  A store is the sequence of lines `readLine` returns for the
    file; `None` is a store file that does not exist.  `WriteLines` and
    `ReadLines` are the file text between a save and the next start. */
module Store {
  import opened Results
  import opened Text

  /** `readLine` ends a line at a line feed or a carriage return. */
  predicate IsLineBreak(c: char) {
    c == '\n' || c == '\r'
  }

  /** Text that `readLine` can return whole: no line terminator inside. */
  predicate IsLine(s: string) {
    '\n' !in s && '\r' !in s
  }

  /** `write(line)` then `newLine()` for every line, the line separator
      being a line feed. */
  function WriteLines(lines: seq<string>): string
    decreases |lines|
  {
    if |lines| == 0 then "" else lines[0] + "\n" + WriteLines(lines[1..])
  }

  /** Where the first line of `text` ends: the first line terminator, or
      the end of the text. */
  function LineEnd(text: string): (n: nat)
    ensures n <= |text|
    ensures forall i :: 0 <= i < n ==> !IsLineBreak(text[i])
    ensures n < |text| ==> IsLineBreak(text[n])
    decreases |text|
  {
    if |text| == 0 || IsLineBreak(text[0]) then 0 else LineEnd(text[1..]) + 1
  }

  /** The `readLine` loop over a whole file: a line ends at `\n`, at `\r`,
      or at `\r\n` taken as one terminator; a last line without terminator
      is still read, and nothing is read after a final terminator. */
  function ReadLines(text: string): (lines: seq<string>)
    ensures forall i :: 0 <= i < |lines| ==> IsLine(lines[i])
    decreases |text|
  {
    if |text| == 0 then []
    else
      var n := LineEnd(text);
      var next := if n + 1 < |text| && text[n] == '\r' && text[n + 1] == '\n' then n + 2
                  else if n < |text| then n + 1
                  else n;
      assert IsLine(text[..n]) by {
        assert forall i :: 0 <= i < n ==> text[..n][i] == text[i];
      }
      [text[..n]] + ReadLines(text[next..])
  }

  /** Lines without terminators are read back exactly as they were written. */
  lemma {:induction false} ReadWriteLines(lines: seq<string>)
    requires forall i :: 0 <= i < |lines| ==> IsLine(lines[i])
    ensures ReadLines(WriteLines(lines)) == lines
    decreases |lines|
  {
    if |lines| > 0 {
      ReadWriteLines(lines[1..]);
      ReadFirstLine(lines[0], WriteLines(lines[1..]));
      assert lines == [lines[0]] + lines[1..];
    }
  }

  /** A written line and its line feed come back as the first line read. */
  lemma ReadFirstLine(l: string, rest: string)
    requires IsLine(l)
    ensures ReadLines(l + "\n" + rest) == [l] + ReadLines(rest)
  {
    var text := l + "\n" + rest;
    FirstLineEnd(text, l, rest);
    assert text[..|l|] == l;
    assert text[|l| + 1..] == rest;
  }

  /** A written line that holds one line feed reads back as two lines. */
  lemma ReadBrokenLine(h: string, a: string, b: string)
    requires IsLine(h) && IsLine(a) && IsLine(b)
    ensures ReadLines(WriteLines([h, a + "\n" + b])) == [h, a, b]
  {
    var line := a + "\n" + b;
    var tail := a + "\n" + (b + "\n" + "");
    assert WriteLines([line]) == line + "\n" + "" by {
      assert [line][1..] == [];
    }
    assert WriteLines([h, line]) == h + "\n" + WriteLines([line]) by {
      assert [h, line][1..] == [line];
    }
    assert line + "\n" + "" == tail;
    ReadFirstLine(b, "");
    ReadFirstLine(a, b + "\n" + "");
    ReadFirstLine(h, tail);
  }

  /** The first line of `l + "\n" + rest` ends at the written line feed. */
  lemma FirstLineEnd(text: string, l: string, rest: string)
    requires IsLine(l) && text == l + "\n" + rest
    ensures LineEnd(text) == |l|
  {
    assert forall i :: 0 <= i < |l| ==> text[i] == l[i];
    assert text[|l|] == '\n';
  }

  /** One line after the header: blank lines and lines that fail to decode
      contribute nothing. */
  function DecodeLine<T>(line: string, decode: string -> Option<T>): (r: seq<T>)
    ensures |r| <= 1
    ensures |r| == 1 <==> !IsBlank(line) && decode(line).Some?
    ensures |r| == 1 ==> decode(line) == Some(r[0])
  {
    if IsBlank(line) then []
    else match decode(line)
      case Some(x) => [x]
      case None => []
  }

  /** The loop of `loadAll` after the header. */
  function DecodeLines<T>(lines: seq<string>, decode: string -> Option<T>): (r: seq<T>)
    ensures |r| <= |lines|
    decreases |lines|
  {
    if |lines| == 0 then []
    else DecodeLine(lines[0], decode) + DecodeLines(lines[1..], decode)
  }

  /** `loadAll`: a missing store, or one with no lines, loads as empty; the
      first line is the header and is skipped whatever it holds. */
  function Load<T>(store: Option<seq<string>>, decode: string -> Option<T>): (r: seq<T>)
    ensures store.None? ==> r == []
    ensures store.Some? && |store.value| > 0 ==> r == DecodeLines(store.value[1..], decode)
  {
    match store
    case None => []
    case Some(lines) => if |lines| == 0 then [] else DecodeLines(lines[1..], decode)
  }

  /** `saveAll`: the header, then one encoded line per record, in order. */
  function Save<T>(header: string, records: seq<T>, encode: T -> string): (lines: seq<string>)
    ensures |lines| == |records| + 1 && lines[0] == header
    ensures forall i :: 0 <= i < |records| ==> lines[i + 1] == encode(records[i])
  {
    [header] + seq(|records|, i requires 0 <= i < |records| => encode(records[i]))
  }

  /** Decoding line by line: the survivors of a concatenation are the
      survivors of each part, in order. */
  lemma {:induction false} DecodeLinesAppend<T>(a: seq<string>, b: seq<string>, decode: string -> Option<T>)
    ensures DecodeLines(a + b, decode) == DecodeLines(a, decode) + DecodeLines(b, decode)
    decreases |a|
  {
    if |a| == 0 {
      assert a + b == b;
    } else {
      assert (a + b)[1..] == a[1..] + b;
      DecodeLinesAppend(a[1..], b, decode);
    }
  }

  /** A line that is blank or fails to decode is dropped and nothing else:
      the lines around it load as if it were absent. */
  lemma SkipsRejectedLine<T>(a: seq<string>, bad: string, b: seq<string>, decode: string -> Option<T>)
    requires IsBlank(bad) || decode(bad).None?
    ensures DecodeLines(a + [bad] + b, decode) == DecodeLines(a, decode) + DecodeLines(b, decode)
  {
    var one := [bad];
    assert DecodeLines(one, decode) == [] by {
      assert one[1..] == [];
      assert DecodeLine(bad, decode) == [];
    }
    assert DecodeLines(a + one, decode) == DecodeLines(a, decode) by {
      DecodeLinesAppend(a, one, decode);
    }
    DecodeLinesAppend(a + one, b, decode);
  }

  /** The first line, then the rest. */
  lemma DecodeLinesCons<T>(lines: seq<string>, decode: string -> Option<T>)
    requires |lines| > 0
    ensures DecodeLines(lines, decode) == DecodeLine(lines[0], decode) + DecodeLines(lines[1..], decode)
  {
  }

  /** Every loaded record is what some single line decodes to (so that line
      is not blank and `decode` accepts it). */
  lemma {:induction false} DecodeLinesSurvivors<T>(lines: seq<string>, decode: string -> Option<T>, k: int)
    requires 0 <= k < |DecodeLines(lines, decode)|
    ensures exists i :: 0 <= i < |lines| && DecodeLine(lines[i], decode) == [DecodeLines(lines, decode)[k]]
    decreases |lines|
  {
    assert |lines| > 0;
    DecodeLinesCons(lines, decode);
    var head := DecodeLine(lines[0], decode);
    var rest := DecodeLines(lines[1..], decode);
    var x := DecodeLines(lines, decode)[k];
    if k < |head| {
      assert head == [x];
      assert DecodeLine(lines[0], decode) == [x];
    } else {
      ConcatIndex(head, rest, k);
      DecodeLinesSurvivors(lines[1..], decode, k - |head|);
      var tail := lines[1..];
      var i :| 0 <= i < |tail| && DecodeLine(tail[i], decode) == [x];
      assert lines[i + 1] == tail[i];
      assert DecodeLine(lines[i + 1], decode) == [x];
    }
  }

  /** Indexing past the first part of a concatenation. */
  lemma ConcatIndex<T>(a: seq<T>, b: seq<T>, k: int)
    requires |a| <= k < |a| + |b|
    ensures (a + b)[k] == b[k - |a|]
  {
  }

  /** Saving to a file and loading it again gives the records back,
      provided the header and every record's line hold no line terminator,
      and each record's line is not blank and decodes to that record. */
  lemma LoadSave<T>(header: string, records: seq<T>, encode: T -> string, decode: string -> Option<T>)
    requires IsLine(header)
    requires forall i :: 0 <= i < |records| ==> IsLine(encode(records[i]))
    requires forall i :: 0 <= i < |records| ==> !IsBlank(encode(records[i]))
    requires forall i :: 0 <= i < |records| ==> decode(encode(records[i])) == Some(records[i])
    ensures Load(Some(ReadLines(WriteLines(Save(header, records, encode)))), decode) == records
  {
    ReadSaved(header, records, encode);
    LoadSaveLines(header, records, encode, decode);
  }

  /** A saved store whose lines hold no terminator reads back line for line. */
  lemma ReadSaved<T>(header: string, records: seq<T>, encode: T -> string)
    requires IsLine(header)
    requires forall i :: 0 <= i < |records| ==> IsLine(encode(records[i]))
    ensures ReadLines(WriteLines(Save(header, records, encode))) == Save(header, records, encode)
  {
    var lines := Save(header, records, encode);
    assert forall i :: 0 <= i < |lines| ==> IsLine(lines[i]) by {
      forall i | 0 <= i < |lines|
        ensures IsLine(lines[i])
      {
        if i > 0 {
          assert lines[i] == encode(records[i - 1]);
        }
      }
    }
    ReadWriteLines(lines);
  }

  /** The same round trip on the lines themselves. */
  lemma {:induction false} LoadSaveLines<T>(header: string, records: seq<T>, encode: T -> string, decode: string -> Option<T>)
    requires forall i :: 0 <= i < |records| ==> !IsBlank(encode(records[i]))
    requires forall i :: 0 <= i < |records| ==> decode(encode(records[i])) == Some(records[i])
    ensures Load(Some(Save(header, records, encode)), decode) == records
    decreases |records|
  {
    if |records| > 0 {
      var x := records[0];
      var rest := records[1..];
      var tail := Save(header, rest, encode)[1..];
      assert Load(Some(Save(header, rest, encode)), decode) == rest by {
        LoadSaveLines(header, rest, encode, decode);
      }
      assert Save(header, records, encode)[1..] == [encode(x)] + tail by {
        SaveTail(header, records, encode);
      }
      assert DecodeLines([encode(x)] + tail, decode) == [x] + rest by {
        DecodeOne(encode(x), x, decode);
        DecodeLinesAppend([encode(x)], tail, decode);
      }
      assert records == [x] + rest;
    }
  }

  /** The lines after the header, first record first. */
  lemma SaveTail<T>(header: string, records: seq<T>, encode: T -> string)
    requires |records| > 0
    ensures Save(header, records, encode)[1..] == [encode(records[0])] + Save(header, records[1..], encode)[1..]
  {
  }

  /** A single accepted line loads as its record. */
  lemma DecodeOne<T>(line: string, x: T, decode: string -> Option<T>)
    requires !IsBlank(line) && decode(line) == Some(x)
    ensures DecodeLines([line], decode) == [x]
  {
    assert [line][1..] == [];
  }
}
