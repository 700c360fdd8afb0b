/** The three `String` operations the store and the registry rely on:
    `trim`, `split(",")` and `equalsIgnoreCase`. */
module Text {

  /** `String.trim` strips every character at or below U+0020. */
  predicate IsTrimmable(c: char) {
    c <= ' '
  }

  function TrimStart(s: string): (r: string)
    ensures |r| <= |s| && r == s[|s| - |r|..]
    ensures |r| > 0 ==> !IsTrimmable(r[0])
    ensures forall i :: 0 <= i < |s| - |r| ==> IsTrimmable(s[i])
    decreases |s|
  {
    if |s| > 0 && IsTrimmable(s[0]) then TrimStart(s[1..]) else s
  }

  function TrimEnd(s: string): (r: string)
    ensures |r| <= |s| && r == s[..|r|]
    ensures |r| > 0 ==> !IsTrimmable(r[|r| - 1])
    ensures forall i :: |r| <= i < |s| ==> IsTrimmable(s[i])
    decreases |s|
  {
    if |s| > 0 && IsTrimmable(s[|s| - 1]) then TrimEnd(s[..|s| - 1]) else s
  }

  /** `String.trim`: the longest infix that neither starts nor ends with a
      trimmable character, dropping only trimmable characters around it. */
  function Trim(s: string): (r: string)
    ensures IsTrimmed(r)
    ensures StripsTo(s, r, |s| - |TrimStart(s)|)
  {
    TrimParts(s);
    TrimEnd(TrimStart(s))
  }

  /** The two trimming passes together strip only trimmable characters. */
  lemma TrimParts(s: string)
    ensures IsTrimmed(TrimEnd(TrimStart(s)))
    ensures StripsTo(s, TrimEnd(TrimStart(s)), |s| - |TrimStart(s)|)
  {
    TrimSlice(s);
    TrimTail(s);
    TrimEnds(s);
  }

  /** The trimmed text is a slice of the input. */
  lemma TrimSlice(s: string)
    ensures TrimEnd(TrimStart(s)) == s[|s| - |TrimStart(s)|..|s| - |TrimStart(s)| + |TrimEnd(TrimStart(s))|]
  {
    var a := TrimStart(s);
    var k := |s| - |a|;
    var r := TrimEnd(a);
    assert a == s[k..];
    assert r == a[..|r|];
    SliceOfSuffix(s, k, |r|);
  }

  /** A prefix of a suffix is a slice. */
  lemma SliceOfSuffix(s: string, k: nat, n: nat)
    requires k + n <= |s|
    ensures s[k..][..n] == s[k..k + n]
  {
  }

  /** Everything after the trimmed text is trimmable. */
  lemma TrimTail(s: string)
    ensures forall i :: |s| - |TrimStart(s)| + |TrimEnd(TrimStart(s))| <= i < |s| ==> IsTrimmable(s[i])
  {
    var a := TrimStart(s);
    var k := |s| - |a|;
    var r := TrimEnd(a);
    forall i | k + |r| <= i < |s|
      ensures IsTrimmable(s[i])
    {
      assert s[i] == a[i - k];
    }
  }

  /** Neither end of the trimmed text is trimmable. */
  lemma TrimEnds(s: string)
    ensures IsTrimmed(TrimEnd(TrimStart(s)))
  {
    var a := TrimStart(s);
    var r := TrimEnd(a);
    if |r| > 0 {
      assert r[0] == a[0];
    }
  }

  /** `r` is `s` with `k` leading and some trailing characters removed,
      all of them trimmable. */
  predicate StripsTo(s: string, r: string, k: int) {
    && 0 <= k <= |s| - |r|
    && r == s[k..k + |r|]
    && (forall i :: 0 <= i < k ==> IsTrimmable(s[i]))
    && (forall i :: k + |r| <= i < |s| ==> IsTrimmable(s[i]))
  }

  /** Neither end of `s` is trimmable. */
  predicate IsTrimmed(s: string) {
    |s| > 0 ==> !IsTrimmable(s[0]) && !IsTrimmable(s[|s| - 1])
  }

  /** A string whose ends are not trimmable is its own trim. */
  lemma TrimOfTrimmed(s: string)
    requires IsTrimmed(s)
    ensures Trim(s) == s
  {
  }

  /** Trimming twice is trimming once, and trimming adds no character. */
  lemma TrimIdempotent(s: string, c: char)
    ensures Trim(Trim(s)) == Trim(s)
    ensures c !in s ==> c !in Trim(s)
  {
    TrimOfTrimmed(Trim(s));
  }

  /** A blank line holds only trimmable characters. */
  predicate IsBlank(s: string) {
    forall i :: 0 <= i < |s| ==> IsTrimmable(s[i])
  }

  /** Blank is exactly `line.trim().isEmpty()`. */
  lemma BlankIffTrimEmpty(s: string)
    ensures IsBlank(s) <==> |Trim(s)| == 0
  {
    var r := Trim(s);
    var k := |s| - |TrimStart(s)|;
    if |r| > 0 {
      assert s[k] == r[0];
    }
  }

  /** Every piece of `s` between separators, empty pieces included:
      one more piece than there are separators. */
  function Pieces(s: string, sep: char): (r: seq<string>)
    ensures |r| >= 1
    ensures forall i :: 0 <= i < |r| ==> sep !in r[i]
    decreases |s|
  {
    if |s| == 0 then [""]
    else
      var rest := Pieces(s[1..], sep);
      if s[0] == sep then [""] + rest
      else [[s[0]] + rest[0]] + rest[1..]
  }

  lemma {:induction false} PiecesWithoutSep(s: string, sep: char)
    requires sep !in s
    ensures Pieces(s, sep) == [s]
    decreases |s|
  {
    if |s| > 0 {
      PiecesWithoutSep(s[1..], sep);
      assert [s[0]] + s[1..] == s;
    }
  }

  /** Splitting distributes over a separator: the pieces of `a + sep + b`
      are those of `a` followed by those of `b`. */
  lemma {:induction false} PiecesJoin(a: string, sep: char, b: string)
    ensures Pieces(a + [sep] + b, sep) == Pieces(a, sep) + Pieces(b, sep)
    decreases |a|
  {
    var s := a + [sep] + b;
    if |a| == 0 {
      assert s[1..] == b;
    } else {
      assert s[1..] == a[1..] + [sep] + b;
      PiecesJoin(a[1..], sep, b);
    }
  }

  lemma PiecesWithSep(s: string, sep: char)
    requires sep in s
    ensures |Pieces(s, sep)| >= 2
  {
    var i :| 0 <= i < |s| && s[i] == sep;
    assert s == s[..i] + [sep] + s[i + 1..];
    PiecesJoin(s[..i], sep, s[i + 1..]);
  }

  /** The fields joined by single separators. */
  function Join(fields: seq<string>, sep: char): string
    decreases |fields|
  {
    if |fields| == 0 then ""
    else if |fields| == 1 then fields[0]
    else fields[0] + [sep] + Join(fields[1..], sep)
  }

  /** Joining adds no character but the separator. */
  lemma {:induction false} JoinAvoids(fields: seq<string>, sep: char, c: char)
    requires c != sep
    requires forall i :: 0 <= i < |fields| ==> c !in fields[i]
    ensures c !in Join(fields, sep)
    decreases |fields|
  {
    if |fields| > 1 {
      JoinAvoids(fields[1..], sep, c);
      assert c !in fields[0];
    }
  }

  /** Splitting a join of separator-free fields gives the fields back. */
  lemma {:induction false} PiecesOfJoin(fields: seq<string>, sep: char)
    requires |fields| >= 1
    requires forall i :: 0 <= i < |fields| ==> sep !in fields[i]
    ensures Pieces(Join(fields, sep), sep) == fields
    decreases |fields|
  {
    PiecesWithoutSep(fields[0], sep);
    if |fields| > 1 {
      PiecesOfJoin(fields[1..], sep);
      PiecesJoin(fields[0], sep, Join(fields[1..], sep));
      assert fields == [fields[0]] + fields[1..];
    }
  }

  function DropTrailingEmpty(ps: seq<string>): (r: seq<string>)
    ensures |r| <= |ps| && r == ps[..|r|]
    ensures |r| > 0 ==> r[|r| - 1] != ""
    decreases |ps|
  {
    if |ps| > 0 && ps[|ps| - 1] == "" then DropTrailingEmpty(ps[..|ps| - 1]) else ps
  }

  /** `String.split` with a one-character separator and limit 0: without any
      separator the input comes back whole (even when empty); otherwise the
      pieces, minus trailing empty ones. */
  function Split(s: string, sep: char): (r: seq<string>)
    ensures sep !in s ==> r == [s]
    ensures sep in s ==> forall i :: 0 <= i < |r| ==> sep !in r[i]
    ensures sep in s ==> r == DropTrailingEmpty(Pieces(s, sep))
  {
    if sep !in s then [s] else DropTrailingEmpty(Pieces(s, sep))
  }

  /** A character absent from the text is absent from every piece. */
  lemma {:induction false} PiecesAvoid(s: string, sep: char, c: char)
    requires c !in s
    ensures forall i :: 0 <= i < |Pieces(s, sep)| ==> c !in Pieces(s, sep)[i]
    decreases |s|
  {
    if |s| > 0 {
      PiecesAvoid(s[1..], sep, c);
      var rest := Pieces(s[1..], sep);
      if s[0] != sep {
        var r := Pieces(s, sep);
        assert r == [[s[0]] + rest[0]] + rest[1..];
        forall i | 0 <= i < |r|
          ensures c !in r[i]
        {
          if i > 0 {
            assert r[i] == rest[i];
          }
        }
      }
    }
  }

  /** ... and from every field `split` returns. */
  lemma SplitAvoids(s: string, sep: char, c: char)
    requires c !in s
    ensures forall i :: 0 <= i < |Split(s, sep)| ==> c !in Split(s, sep)[i]
  {
    if sep in s {
      PiecesAvoid(s, sep, c);
      var ps := Pieces(s, sep);
      var r := Split(s, sep);
      assert forall i :: 0 <= i < |r| ==> r[i] == ps[i];
    }
  }

  /** When the last piece is not empty, `split` keeps every piece. */
  lemma SplitKeepsPieces(s: string, sep: char)
    requires Pieces(s, sep)[|Pieces(s, sep)| - 1] != ""
    ensures Split(s, sep) == Pieces(s, sep)
  {
    if sep !in s {
      PiecesWithoutSep(s, sep);
    }
  }

  /** Case folding of one character, restricted to ASCII letters. */
  function FoldCase(c: char): (r: char)
    ensures 'A' <= c <= 'Z' ==> r as int == c as int + 32
    ensures !('A' <= c <= 'Z') ==> r == c
  {
    if 'A' <= c <= 'Z' then (c as int + 32) as char else c
  }

  /** `String.equalsIgnoreCase`: same length and every position agrees
      after case folding. */
  predicate EqualsIgnoreCase(a: string, b: string) {
    |a| == |b| && forall i :: 0 <= i < |a| ==> FoldCase(a[i]) == FoldCase(b[i])
  }

  lemma EqualsIgnoreCaseIsEquivalence(a: string, b: string, c: string)
    ensures EqualsIgnoreCase(a, a)
    ensures EqualsIgnoreCase(a, b) ==> EqualsIgnoreCase(b, a)
    ensures EqualsIgnoreCase(a, b) && EqualsIgnoreCase(b, c) ==> EqualsIgnoreCase(a, c)
  {
  }

  /** Upper- and lower-case spellings of an ASCII name collide. */
  lemma CaseVariantsCollide()
    ensures EqualsIgnoreCase("Aria", "aRIA")
    ensures !EqualsIgnoreCase("Aria", "Arya")
  {
    assert FoldCase("Aria"[2]) != FoldCase("Arya"[2]);
  }
}
