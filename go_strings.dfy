/** Models of `strings.Fields`, `Split` and `TrimSpace`, the `strings` functions the
    monitor's parsers call (its `HasPrefix` and `Contains` are Dafny's `<=` and `in`),
    over text already decoded into code points. `Join` is not called by the monitor; it
    builds the texts of the round-trip lemmas. */
module GoStrings {

  /** `unicode.IsSpace`: the code points with the Unicode White_Space property. */
  predicate IsSpace(c: char) {
    var n := c as int;
    (9 <= n <= 13) || n == 0x20 || n == 0x85 || n == 0xA0 || n == 0x1680
    || (0x2000 <= n <= 0x200A) || n == 0x2028 || n == 0x2029 || n == 0x202F
    || n == 0x205F || n == 0x3000
  }

  /** Within Latin-1, white space is exactly Go's short list: tab, newline, vertical
      tab, form feed, carriage return, space, NEL (U+0085) and no-break space (U+00A0). */
  lemma IsSpaceLatin1(c: char)
    requires c as int <= 0xFF
    ensures IsSpace(c) <==>
      c == '\t' || c == '\n' || c as int == 0x0B || c as int == 0x0C || c == '\r' || c == ' '
      || c as int == 0x85 || c as int == 0xA0
  {
  }

  predicate AllSpace(s: seq<char>) {
    forall i :: 0 <= i < |s| ==> IsSpace(s[i])
  }

  /** What `strings.Fields` can return as one element: non-empty and free of white space. */
  predicate IsField(f: seq<char>) {
    f != [] && forall i :: 0 <= i < |f| ==> !IsSpace(f[i])
  }

  predicate AllFields(fs: seq<seq<char>>) {
    forall k :: 0 <= k < |fs| ==> IsField(fs[k])
  }

  /** Length of the run of non-space characters at the start of `s`. */
  function TokenLength(s: seq<char>): (n: nat)
    ensures n <= |s|
    ensures forall i :: 0 <= i < n ==> !IsSpace(s[i])
    ensures n < |s| ==> IsSpace(s[n])
  {
    if s == [] || IsSpace(s[0]) then 0 else 1 + TokenLength(s[1..])
  }

  /** `strings.Fields`: the maximal runs of non-space characters of `s`, in order. */
  function Fields(s: seq<char>): (fs: seq<seq<char>>)
    ensures AllFields(fs)
    decreases |s|
  {
    if s == [] then []
    else if IsSpace(s[0]) then Fields(s[1..])
    else
      var n := TokenLength(s);
      [s[..n]] + Fields(s[n..])
  }

  lemma {:induction false} TokenLengthOfField(f: seq<char>, rest: seq<char>)
    requires IsField(f)
    requires rest == [] || IsSpace(rest[0])
    ensures TokenLength(f + rest) == |f|
    decreases |f|
  {
    assert (f + rest)[0] == f[0];
    if |f| == 1 {
      assert (f + rest)[1..] == rest;
    } else {
      assert (f + rest)[1..] == f[1..] + rest;
      TokenLengthOfField(f[1..], rest);
    }
  }

  /** A line that is one field has that field alone. */
  lemma FieldsOfField(f: seq<char>)
    requires IsField(f)
    ensures Fields(f) == [f]
  {
    TokenLengthOfField(f, []);
    assert f + [] == f;
    assert f[..|f|] == f;
    assert f[|f|..] == [];
  }

  /** Any non-empty run of white space after a field ends it, exactly as one space does:
      the field comes first and the rest of the line gives the other fields. */
  lemma FieldsAfterField(f: seq<char>, ws: seq<char>, rest: seq<char>)
    requires IsField(f) && ws != [] && AllSpace(ws)
    ensures Fields(f + ws + rest) == [f] + Fields(rest)
  {
    var s := f + ws + rest;
    assert s == f + (ws + rest);
    assert (ws + rest)[0] == ws[0];
    TokenLengthOfField(f, ws + rest);
    assert s[..|f|] == f;
    assert s[|f|..] == ws + rest;
    FieldsSkipSpace(ws, rest);
  }

  /** A non-empty run of white space, as found between two columns of a table. */
  predicate IsGap(ws: seq<char>) {
    ws != [] && AllSpace(ws)
  }

  /** The fields `fs` laid out with the gap `gaps[i]` between `fs[i]` and `fs[i + 1]`. */
  function PaddedJoin(fs: seq<seq<char>>, gaps: seq<seq<char>>): seq<char>
    requires |fs| >= 1 && |gaps| == |fs| - 1
    decreases |fs|
  {
    if |fs| == 1 then fs[0] else fs[0] + gaps[0] + PaddedJoin(fs[1..], gaps[1..])
  }

  /** However wide the gaps between the fields, splitting the line gives the fields back. */
  lemma {:induction false} FieldsOfPaddedJoin(fs: seq<seq<char>>, gaps: seq<seq<char>>)
    requires |fs| >= 1 && |gaps| == |fs| - 1
    requires AllFields(fs) && forall i :: 0 <= i < |gaps| ==> IsGap(gaps[i])
    ensures Fields(PaddedJoin(fs, gaps)) == fs
    decreases |fs|
  {
    if |fs| == 1 {
      FieldsOfField(fs[0]);
    } else {
      FieldsAfterField(fs[0], gaps[0], PaddedJoin(fs[1..], gaps[1..]));
      assert forall i :: 0 <= i < |gaps| - 1 ==> gaps[1..][i] == gaps[i + 1];
      FieldsOfPaddedJoin(fs[1..], gaps[1..]);
      assert fs == [fs[0]] + fs[1..];
    }
  }

  /** Splitting a line that was built from fields with single spaces gives the fields back. */
  lemma {:induction false} FieldsOfJoin(fs: seq<seq<char>>)
    requires AllFields(fs)
    ensures Fields(Join(fs, ' ')) == fs
    decreases |fs|
  {
    if |fs| == 1 {
      FieldsOfField(fs[0]);
    } else if |fs| > 1 {
      FieldsAfterField(fs[0], [' '], Join(fs[1..], ' '));
      FieldsOfJoin(fs[1..]);
    }
  }

  lemma {:induction false} TokenLengthTrailing(s: seq<char>, ws: seq<char>)
    requires AllSpace(ws)
    ensures TokenLength(s + ws) == TokenLength(s)
    decreases |s|
  {
    if s == [] {
      assert s + ws == ws;
    } else {
      assert (s + ws)[0] == s[0];
      if !IsSpace(s[0]) {
        assert (s + ws)[1..] == s[1..] + ws;
        TokenLengthTrailing(s[1..], ws);
      }
    }
  }

  /** Trailing white space, such as the final newline of a pseudo-file, never changes the
      fields of a line. */
  lemma {:induction false} FieldsTrailingSpace(s: seq<char>, ws: seq<char>)
    requires AllSpace(ws)
    ensures Fields(s + ws) == Fields(s)
    decreases |s|
  {
    if s == [] {
      assert s + ws == ws + [];
      FieldsSkipSpace(ws, []);
    } else if IsSpace(s[0]) {
      assert (s + ws)[0] == s[0];
      assert (s + ws)[1..] == s[1..] + ws;
      FieldsTrailingSpace(s[1..], ws);
    } else {
      var n := TokenLength(s);
      TokenLengthTrailing(s, ws);
      assert (s + ws)[0] == s[0];
      assert (s + ws)[..n] == s[..n];
      assert (s + ws)[n..] == s[n..] + ws;
      FieldsTrailingSpace(s[n..], ws);
    }
  }

  /** Leading white space never changes the fields of a line. */
  lemma {:induction false} FieldsSkipSpace(ws: seq<char>, s: seq<char>)
    requires AllSpace(ws)
    ensures Fields(ws + s) == Fields(s)
    decreases |ws|
  {
    if ws == [] {
      assert ws + s == s;
    } else {
      assert (ws + s)[0] == ws[0];
      assert (ws + s)[1..] == ws[1..] + s;
      FieldsSkipSpace(ws[1..], s);
    }
  }

  /** `strings.Split(s, string(sep))` for a one-character separator: the pieces between
      the occurrences of `sep`; `Split("", sep)` is `[""]`. */
  function Split(s: seq<char>, sep: char): (parts: seq<seq<char>>)
    ensures |parts| >= 1
    ensures forall k :: 0 <= k < |parts| ==> sep !in parts[k]
  {
    if s == [] then [[]]
    else
      var rest := Split(s[1..], sep);
      if s[0] == sep then [[]] + rest else [[s[0]] + rest[0]] + rest[1..]
  }

  /** `strings.Join(parts, string(sep))`. */
  function Join(parts: seq<seq<char>>, sep: char): seq<char> {
    if parts == [] then []
    else if |parts| == 1 then parts[0]
    else parts[0] + [sep] + Join(parts[1..], sep)
  }

  /** Joining the pieces of a split gives the text back. */
  lemma {:induction false} JoinSplit(s: seq<char>, sep: char)
    ensures Join(Split(s, sep), sep) == s
  {
    if s != [] {
      var rest := Split(s[1..], sep);
      JoinSplit(s[1..], sep);
      if s[0] == sep {
        assert Join(Split(s, sep), sep) == [] + [sep] + Join(rest, sep);
      } else if |rest| == 1 {
        assert Join(Split(s, sep), sep) == [s[0]] + rest[0];
      } else {
        assert Join(rest, sep) == rest[0] + [sep] + Join(rest[1..], sep);
        assert Join(Split(s, sep), sep) == ([s[0]] + rest[0]) + [sep] + Join(rest[1..], sep);
      }
    }
  }

  lemma {:induction false} SplitPrefix(p: seq<char>, sep: char, tail: seq<char>)
    requires sep !in p
    ensures Split(p + tail, sep) == [p + Split(tail, sep)[0]] + Split(tail, sep)[1..]
    decreases |p|
  {
    if p == [] {
      assert p + tail == tail;
      assert p + Split(tail, sep)[0] == Split(tail, sep)[0];
      assert Split(tail, sep) == [Split(tail, sep)[0]] + Split(tail, sep)[1..];
    } else {
      assert (p + tail)[1..] == p[1..] + tail;
      assert (p + tail)[0] == p[0];
      SplitPrefix(p[1..], sep, tail);
      assert [p[0]] + (p[1..] + Split(tail, sep)[0]) == p + Split(tail, sep)[0];
    }
  }

  /** Splitting joined pieces that do not contain the separator gives the pieces back. */
  lemma {:induction false} SplitJoin(parts: seq<seq<char>>, sep: char)
    requires |parts| >= 1
    requires forall k :: 0 <= k < |parts| ==> sep !in parts[k]
    ensures Split(Join(parts, sep), sep) == parts
    decreases |parts|
  {
    var p := parts[0];
    if |parts| == 1 {
      SplitPrefix(p, sep, []);
      assert p + [] == p;
    } else {
      var rest := Join(parts[1..], sep);
      assert Join(parts, sep) == p + ([sep] + rest);
      SplitPrefix(p, sep, [sep] + rest);
      assert ([sep] + rest)[1..] == rest;
      SplitJoin(parts[1..], sep);
      assert Split([sep] + rest, sep) == [[]] + parts[1..];
      assert p + [] == p;
    }
  }

  function TrimLeft(s: seq<char>): (r: seq<char>)
    ensures |r| <= |s| && r == s[|s| - |r|..]
    ensures AllSpace(s[..|s| - |r|])
    ensures r != [] ==> !IsSpace(r[0])
  {
    if s != [] && IsSpace(s[0]) then
      var r := TrimLeft(s[1..]);
      assert s[..|s| - |r|] == [s[0]] + s[1..][..|s| - 1 - |r|];
      r
    else s
  }

  function TrimRight(s: seq<char>): (r: seq<char>)
    ensures |r| <= |s| && r == s[..|r|]
    ensures AllSpace(s[|r|..])
    ensures r != [] ==> !IsSpace(r[|r| - 1])
  {
    if s != [] && IsSpace(s[|s| - 1]) then
      var r := TrimRight(s[..|s| - 1]);
      assert s[|r|..] == s[..|s| - 1][|r|..] + [s[|s| - 1]];
      r
    else s
  }

  /** `strings.TrimSpace`: `s` without its leading and trailing white space. */
  function TrimSpace(s: seq<char>): (r: seq<char>)
    ensures |r| <= |s|
    ensures r != [] ==> !IsSpace(r[0]) && !IsSpace(r[|r| - 1])
    ensures AllSpace(s) ==> r == []
    ensures s != [] && !IsSpace(s[0]) && !IsSpace(s[|s| - 1]) ==> r == s
  {
    TrimRight(TrimLeft(s))
  }

  /** What `TrimSpace` removes is white space at the two ends, and nothing else: the
      result is the slice of `s` that starts at `i`. */
  lemma TrimSpaceIsSlice(s: seq<char>) returns (i: nat, j: nat)
    ensures i <= j <= |s| && TrimSpace(s) == s[i..j]
    ensures AllSpace(s[..i]) && AllSpace(s[j..])
  {
    i := |s| - |TrimLeft(s)|;
    j := i + |TrimSpace(s)|;
    assert TrimSpace(s) == s[i..j] && AllSpace(s[j..]) by {
      var l := TrimLeft(s);
      var r := TrimRight(l);
      assert TrimSpace(s) == r;
      PrefixOfSuffix(s, l, r, i);
    }
  }

  /** A prefix `r` of the suffix `l` of `s` that starts at `i` is a slice of `s`, and what
      follows `r` in `l` follows it in `s` too. */
  lemma PrefixOfSuffix(s: seq<char>, l: seq<char>, r: seq<char>, i: nat)
    requires i + |l| == |s| && l == s[i..]
    requires |r| <= |l| && r == l[..|r|] && AllSpace(l[|r|..])
    ensures i + |r| <= |s| && r == s[i..i + |r|]
    ensures AllSpace(s[i + |r|..])
  {
    assert s[i + |r|..] == l[|r|..];
  }

  /** The joined text starts with the first piece's first character and ends with the
      last piece's last character. */
  lemma {:induction false} JoinEnds(parts: seq<seq<char>>, sep: char)
    requires |parts| >= 1 && forall k :: 0 <= k < |parts| ==> parts[k] != []
    ensures Join(parts, sep) != []
    ensures Join(parts, sep)[0] == parts[0][0]
    ensures Join(parts, sep)[|Join(parts, sep)| - 1] == parts[|parts| - 1][|parts[|parts| - 1]| - 1]
    decreases |parts|
  {
    if |parts| > 1 {
      JoinEnds(parts[1..], sep);
    }
  }

  lemma {:induction false} TrimRightSpaces(s: seq<char>, ws: seq<char>)
    requires s == [] || !IsSpace(s[|s| - 1])
    requires AllSpace(ws)
    ensures TrimRight(s + ws) == s
    decreases |ws|
  {
    if ws == [] {
      assert s + ws == s;
    } else {
      var ws' := ws[..|ws| - 1];
      assert (s + ws)[..|s + ws| - 1] == s + ws';
      TrimRightSpaces(s, ws');
    }
  }

  /** Trailing white space, such as a final newline, is trimmed away. */
  lemma TrimSpaceTrailing(s: seq<char>, ws: seq<char>)
    requires s != [] && !IsSpace(s[0]) && !IsSpace(s[|s| - 1])
    requires AllSpace(ws)
    ensures TrimSpace(s + ws) == s
  {
    assert (s + ws)[0] == s[0];
    TrimRightSpaces(s, ws);
  }
}
