/** Character-level text handling shared by the indexer and the row fetcher:
    Python's `str.strip()`, `str.split(',')`, and `readline()` on a file
    held as a string in which '\n' terminates lines. */
module Text {

  /** The characters Python's `str.isspace()` accepts, which `str.strip()`
      with no argument removes from both ends. */
  predicate IsSpace(c: char) {
    || c == ' '
    || '\t' <= c <= '\r'
    || '\U{1c}' <= c <= '\U{1f}'
    || c == '\U{85}' || c == '\U{a0}' || c == '\U{1680}'
    || '\U{2000}' <= c <= '\U{200a}'
    || c == '\U{2028}' || c == '\U{2029}' || c == '\U{202f}'
    || c == '\U{205f}' || c == '\U{3000}'
  }

  function TrimLeft(s: string): (r: string)
    ensures |r| <= |s|
  {
    if |s| > 0 && IsSpace(s[0]) then TrimLeft(s[1..]) else s
  }

  function TrimRight(s: string): string {
    if |s| > 0 && IsSpace(s[|s| - 1]) then TrimRight(s[..|s| - 1]) else s
  }

  /** `TrimLeft` removes exactly the leading whitespace. */
  lemma {:induction false} TrimLeftMeaning(s: string)
    ensures var r := TrimLeft(s);
            && |r| <= |s| && r == s[|s| - |r|..]
            && (forall i :: 0 <= i < |s| - |r| ==> IsSpace(s[i]))
            && (|r| > 0 ==> !IsSpace(r[0]))
  {
    if |s| > 0 && IsSpace(s[0]) {
      TrimLeftMeaning(s[1..]);
    }
  }

  /** `TrimRight` removes exactly the trailing whitespace. */
  lemma {:induction false} TrimRightMeaning(s: string)
    ensures var r := TrimRight(s);
            && |r| <= |s| && r == s[..|r|]
            && (forall i :: |r| <= i < |s| ==> IsSpace(s[i]))
            && (|r| > 0 ==> !IsSpace(r[|r| - 1]))
  {
    if |s| > 0 && IsSpace(s[|s| - 1]) {
      TrimRightMeaning(s[..|s| - 1]);
    }
  }

  /** How many whitespace characters open `s`. */
  function LeadingSpace(s: string): nat {
    |s| - |TrimLeft(s)|
  }

  /** Python's `s.strip()`. */
  function Strip(s: string): string {
    TrimRight(TrimLeft(s))
  }

  /** What `strip()` keeps: the infix of `s` left once the whitespace at
      both ends is removed; it neither starts nor ends with whitespace. */
  lemma StripMeaning(s: string)
    ensures var r := Strip(s);
            && LeadingSpace(s) + |r| <= |s|
            && r == s[LeadingSpace(s)..LeadingSpace(s) + |r|]
            && (forall j :: 0 <= j < LeadingSpace(s) ==> IsSpace(s[j]))
            && (forall j :: LeadingSpace(s) + |r| <= j < |s| ==> IsSpace(s[j]))
            && (|r| > 0 ==> !IsSpace(r[0]) && !IsSpace(r[|r| - 1]))
  {
    var left := TrimLeft(s);
    TrimLeftMeaning(s);
    TrimRightMeaning(left);
    var r := TrimRight(left);
    var i := |s| - |left|;
    assert r == s[i..i + |r|];
  }

  /** A string made of whitespace only strips to the empty string. */
  lemma StripBlank(s: string)
    requires forall i :: 0 <= i < |s| ==> IsSpace(s[i])
    ensures Strip(s) == ""
  {
    StripMeaning(s);
  }

  /** Fields joined back with commas: the inverse of `Split`. */
  function Join(fields: seq<string>): string
    requires |fields| > 0
  {
    if |fields| == 1 then fields[0] else fields[0] + "," + Join(fields[1..])
  }

  /** Python's `s.split(',')` with an explicit separator: never empty, the
      empty string gives `['']`, adjacent commas give empty fields. */
  function Split(s: string): (fields: seq<string>)
    ensures |fields| > 0
  {
    if |s| == 0 then [""]
    else
      var rest := Split(s[1..]);
      if s[0] == ',' then [""] + rest
      else [[s[0]] + rest[0]] + rest[1..]
  }

  /** The fields of `Split` hold no comma and join back to the input. */
  lemma {:induction false} SplitMeaning(s: string)
    ensures forall i :: 0 <= i < |Split(s)| ==> ',' !in Split(s)[i]
    ensures Join(Split(s)) == s
  {
    if |s| > 0 {
      var rest := Split(s[1..]);
      SplitMeaning(s[1..]);
      if s[0] == ',' {
        assert ([""] + rest)[1..] == rest;
      } else {
        var fields := [[s[0]] + rest[0]] + rest[1..];
        assert Join(fields) == [s[0]] + Join(rest) by {
          if |rest| > 1 {
            assert fields[1..] == rest[1..];
          }
        }
        assert [s[0]] + s[1..] == s;
        assert forall i :: 1 <= i < |fields| ==> fields[i] == rest[i];
        assert forall c :: c in fields[0] ==> c == s[0] || c in rest[0];
      }
    }
  }

  /** Splitting a comma-free field list joined by commas gives the list
      back: together with `Split`'s contract, `Split` and `Join` are mutual
      inverses. */
  lemma {:induction false} SplitJoin(fields: seq<string>)
    requires |fields| > 0
    requires forall i :: 0 <= i < |fields| ==> ',' !in fields[i]
    ensures Split(Join(fields)) == fields
    decreases |Join(fields)|, |fields[0]|
  {
    var f := fields[0];
    if |fields| == 1 {
      if |f| > 0 {
        SplitJoin([f[1..]]);
        assert f == [f[0]] + f[1..];
        assert f[0] != ',' by { assert f[0] in f; }
        assert f[1..] == Join([f[1..]]);
        assert f[1..] == Join(fields)[1..];
      }
    } else if |f| == 0 {
      assert fields[1..][0] in fields;
      SplitJoin(fields[1..]);
      assert Join(fields)[1..] == Join(fields[1..]);
    } else {
      var g := [f[1..]] + fields[1..];
      assert forall i :: 0 <= i < |g| ==> ',' !in g[i] by {
        forall i | 0 <= i < |g| ensures ',' !in g[i] {
          if i == 0 {
            assert forall c :: c in f[1..] ==> c in f;
          } else {
            assert g[i] == fields[i];
          }
        }
      }
      assert g[1..] == fields[1..];
      assert Join(g) == f[1..] + "," + Join(fields[1..]);
      assert Join(fields) == [f[0]] + Join(g);
      SplitJoin(g);
      assert f[0] != ',' by { assert f[0] in f; }
      assert Join(fields)[1..] == Join(g);
      assert [f[0]] + g[0] == f;
      assert [[f[0]] + g[0]] + g[1..] == fields;
    }
  }

  /** The position just past the line starting at `p`: past its '\n', or
      the end of the text for a last line without one. */
  function LineEnd(text: string, p: nat): (e: nat)
    requires p <= |text|
    ensures p <= e <= |text|
    ensures p < |text| ==> p < e
    ensures e == |text| || text[e - 1] == '\n'
    decreases |text| - p
  {
    if p == |text| then p
    else if text[p] == '\n' then p + 1
    else LineEnd(text, p + 1)
  }

  /** A line holds no '\n' before its end. */
  lemma {:induction false} LineEndMeaning(text: string, p: nat)
    requires p <= |text|
    ensures forall i :: p <= i < LineEnd(text, p) - 1 ==> text[i] != '\n'
    decreases |text| - p
  {
    if p < |text| && text[p] != '\n' {
      LineEndMeaning(text, p + 1);
    }
  }

  /** `o` is where a line begins: the start of the text or just after a '\n'. */
  predicate IsLineStart(text: string, o: nat) {
    o == 0 || (0 < o <= |text| && text[o - 1] == '\n')
  }

  /** No line begins strictly inside another line. */
  lemma NoLineStartInside(text: string, p: nat, o: nat)
    requires p < |text| && p < o < LineEnd(text, p)
    ensures !IsLineStart(text, o)
  {
    LineEndMeaning(text, p);
    assert text[o - 1] != '\n';
  }

  /** `readline()` after seeking to `o`: the characters up to and including
      the next '\n', or the rest of the text; empty at or past the end. */
  function ReadLine(text: string, o: nat): (line: string)
    ensures o >= |text| ==> line == ""
  {
    if o < |text| then text[o..LineEnd(text, o)] else ""
  }

  /** The line read at `o` is the text from `o` up to and including the
      first '\n', or to the end of the text; nothing at or past the end. */
  lemma ReadLineMeaning(text: string, o: nat)
    ensures var line := ReadLine(text, o);
            && (o < |text| ==> 0 < |line| <= |text| - o && line == text[o..o + |line|])
            && (forall i :: 0 <= i < |line| - 1 ==> line[i] != '\n')
            && (o < |text| ==> o + |line| == |text| || line[|line| - 1] == '\n')
  {
    if o < |text| {
      LineEndMeaning(text, o);
    }
  }

  /** The fields of the line at `o`: `line.strip().split(',')`. */
  function Fields(text: string, o: nat): (fields: seq<string>)
    ensures |fields| > 0
  {
    Split(Strip(ReadLine(text, o)))
  }

  /** A line holding only whitespace (a blank line) has the single empty
      field `['']`. */
  lemma BlankLineFields(text: string, o: nat)
    requires forall i :: 0 <= i < |ReadLine(text, o)| ==> IsSpace(ReadLine(text, o)[i])
    ensures Fields(text, o) == [""]
  {
    StripBlank(ReadLine(text, o));
  }
}
