/**
  The few `java.lang.String`, `StringBuilder` and `BufferedReader` operations
  the chat core relies on, written out on `seq<char>`.

  Dafny's `char` is a Unicode scalar value, so a Java surrogate pair is one
  `char` here; `StringBuilder.reverse` keeps surrogate pairs together, which
  makes it exactly the reversal of the scalar sequence.
*/
module JavaString {
  import opened Wrappers

  /** `new StringBuilder(s).reverse().toString()`. */
  function Reverse(s: string): (r: string)
    ensures |r| == |s|
    ensures forall i :: 0 <= i < |s| ==> r[i] == s[|s| - 1 - i]
  {
    if s == [] then [] else Reverse(s[1..]) + [s[0]]
  }

  lemma {:induction false} ReverseInvolution(s: string)
    ensures Reverse(Reverse(s)) == s
  {
    var r := Reverse(Reverse(s));
    assert forall i :: 0 <= i < |s| ==> r[i] == s[i];
  }

  /** The characters `String.trim` strips: every code point up to U+0020. */
  predicate IsTrimmable(c: char) {
    c <= ' '
  }

  /** The leading half of `String.trim`. */
  function TrimStart(s: string): string {
    if s != [] && IsTrimmable(s[0]) then TrimStart(s[1..]) else s
  }

  /** The trailing half of `String.trim`. */
  function TrimEnd(s: string): string {
    if s != [] && IsTrimmable(s[|s| - 1]) then TrimEnd(s[..|s| - 1]) else s
  }

  /** `TrimStart` drops the longest prefix of trimmable characters. */
  lemma {:induction false} TrimStartDrops(s: string)
    ensures |TrimStart(s)| <= |s| && TrimStart(s) == s[|s| - |TrimStart(s)|..]
    ensures TrimStart(s) == [] || !IsTrimmable(TrimStart(s)[0])
    ensures forall i :: 0 <= i < |s| - |TrimStart(s)| ==> IsTrimmable(s[i])
  {
    if s != [] && IsTrimmable(s[0]) {
      TrimStartDrops(s[1..]);
      assert forall i :: 1 <= i < |s| ==> s[i] == s[1..][i - 1];
    }
  }

  /** `TrimEnd` drops the longest suffix of trimmable characters. */
  lemma {:induction false} TrimEndDrops(s: string)
    ensures |TrimEnd(s)| <= |s| && TrimEnd(s) == s[..|TrimEnd(s)|]
    ensures TrimEnd(s) == [] || !IsTrimmable(TrimEnd(s)[|TrimEnd(s)| - 1])
    ensures forall i :: |TrimEnd(s)| <= i < |s| ==> IsTrimmable(s[i])
  {
    if s != [] && IsTrimmable(s[|s| - 1]) {
      TrimEndDrops(s[..|s| - 1]);
    }
  }

  /** `s.trim()`. */
  function Trim(s: string): string {
    TrimEnd(TrimStart(s))
  }

  /** `s.trim().isEmpty()`. */
  predicate IsBlank(s: string) {
    Trim(s) == []
  }

  /** A string is blank exactly when every character of it is one `trim` strips. */
  lemma BlankIff(s: string)
    ensures IsBlank(s) <==> forall i :: 0 <= i < |s| ==> IsTrimmable(s[i])
  {
    TrimStartDrops(s);
    TrimEndDrops(TrimStart(s));
    var t := TrimStart(s);
    if forall i :: 0 <= i < |s| ==> IsTrimmable(s[i]) {
      if t != [] {
        assert t[0] == s[|s| - |t|];
      }
    } else if t != [] {
      assert TrimEnd(t) != [];
    }
  }

  /** `s.startsWith(prefix)`. */
  predicate StartsWith(s: string, prefix: string) {
    |prefix| <= |s| && s[..|prefix|] == prefix
  }

  /** `String.join(sep, xs)`. */
  function Join(sep: string, xs: seq<string>): string
  {
    if xs == [] then "" else if |xs| == 1 then xs[0] else xs[0] + sep + Join(sep, xs[1..])
  }

  /** Joining one more field appends the separator and that field. */
  lemma {:induction false} JoinSnoc(sep: string, xs: seq<string>, x: string)
    requires xs != []
    ensures Join(sep, xs + [x]) == Join(sep, xs) + sep + x
  {
    if |xs| == 1 {
      assert xs + [x] == [xs[0], x];
    } else {
      assert (xs + [x])[1..] == xs[1..] + [x];
      JoinSnoc(sep, xs[1..], x);
    }
  }

  /** The fields of `s` between the occurrences of the literal `sep`, found
      left to right without overlap; `field` is the part of the current
      field already read. */
  function SplitFields(s: string, sep: string, field: string): (r: seq<string>)
    requires |sep| > 0
    ensures |r| >= 1
    ensures Join(sep, r) == field + s
    decreases |s|
  {
    if s == [] then [field]
    else if StartsWith(s, sep) then
      var rest := SplitFields(s[|sep|..], sep, []);
      assert ([field] + rest)[1..] == rest;
      assert s == sep + s[|sep|..];
      [field] + rest
    else
      assert field + [s[0]] + s[1..] == field + s;
      SplitFields(s[1..], sep, field + [s[0]])
  }

  /** `sep` occurs in `t` starting at position `i`. */
  predicate OccursAt(t: string, sep: string, i: nat) {
    i + |sep| <= |t| && t[i..i + |sep|] == sep
  }

  /** The cuts fall at every separator: when no occurrence of `sep` starts
      inside the field already read, no field of the result holds `sep`. */
  lemma {:induction false} SplitFieldsCuts(s: string, sep: string, field: string)
    requires |sep| > 0
    requires forall i :: 0 <= i < |field| ==> !OccursAt(field + s, sep, i)
    ensures forall k, i :: 0 <= k < |SplitFields(s, sep, field)| && 0 <= i ==> !OccursAt(SplitFields(s, sep, field)[k], sep, i)
    decreases |s|
  {
    if s == [] {
      assert field + s == field;
    } else if StartsWith(s, sep) {
      SplitFieldsCuts(s[|sep|..], sep, []);
      forall i | 0 <= i && OccursAt(field, sep, i) ensures false {
        assert (field + s)[i..i + |sep|] == field[i..i + |sep|];
        assert i < |field| && OccursAt(field + s, sep, i);
      }
    } else {
      var longer := field + [s[0]];
      assert longer + s[1..] == field + s;
      forall i | 0 <= i < |longer| ensures !OccursAt(longer + s[1..], sep, i) {
        if i == |field| && i + |sep| <= |field + s| {
          assert (field + s)[i..i + |sep|] == s[..|sep|];
        }
      }
      SplitFieldsCuts(s[1..], sep, longer);
    }
  }

  /** What `Pattern.split` with limit 0 does last: drop trailing empty fields. */
  function DropTrailingEmpty(xs: seq<string>): (r: seq<string>)
    ensures |r| <= |xs| && r == xs[..|r|]
    ensures r == [] || r[|r| - 1] != []
    ensures forall i :: |r| <= i < |xs| ==> xs[i] == []
  {
    if xs != [] && xs[|xs| - 1] == [] then DropTrailingEmpty(xs[..|xs| - 1]) else xs
  }

  /** `s.split(sep)` for a separator without regular-expression metacharacters:
      the empty string, which holds no match, splits into itself; otherwise the
      fields are split at every match and the trailing empty ones dropped. */
  function Split(s: string, sep: string): seq<string>
    requires |sep| > 0
  {
    if s == [] then [s] else DropTrailingEmpty(SplitFields(s, sep, []))
  }

  /** No field `split` returns holds the separator. */
  lemma SplitCuts(s: string, sep: string)
    requires |sep| > 0
    ensures forall k, i :: 0 <= k < |Split(s, sep)| && 0 <= i ==> !OccursAt(Split(s, sep)[k], sep, i)
  {
    if s != [] {
      SplitFieldsCuts(s, sep, []);
      assert [] + s == s;
    }
  }

  /** Reading through a piece `x` that holds no first character of the
      separator only extends the current field. */
  lemma {:induction false} SplitFieldsSkip(x: string, rest: string, sep: string, field: string)
    requires |sep| > 0
    requires forall i :: 0 <= i < |x| ==> x[i] != sep[0]
    ensures SplitFields(x + rest, sep, field) == SplitFields(rest, sep, field + x)
  {
    if x != [] {
      assert (x + rest)[1..] == x[1..] + rest;
      assert !StartsWith(x + rest, sep) by { assert (x + rest)[0] == x[0]; }
      SplitFieldsSkip(x[1..], rest, sep, field + [x[0]]);
      assert field + [x[0]] + x[1..] == field + x;
    } else {
      assert x + rest == rest;
      assert field + x == field;
    }
  }

  /** The first field of a join is a prefix of it. */
  lemma {:induction false} JoinStartsWithFirst(sep: string, xs: seq<string>)
    requires xs != []
    ensures |xs[0]| <= |Join(sep, xs)| && Join(sep, xs)[..|xs[0]|] == xs[0]
  {
    if |xs| > 1 {
      assert Join(sep, xs) == xs[0] + (sep + Join(sep, xs[1..]));
    }
  }

  /** Splitting a join gives back its fields, provided none of them holds the
      separator's first character. */
  lemma {:induction false} SplitFieldsJoin(xs: seq<string>, sep: string)
    requires |sep| > 0 && xs != []
    requires forall k, i :: 0 <= k < |xs| && 0 <= i < |xs[k]| ==> xs[k][i] != sep[0]
    ensures SplitFields(Join(sep, xs), sep, []) == xs
  {
    var x := xs[0];
    if |xs| == 1 {
      SplitFieldsSkip(x, [], sep, []);
      assert x + [] == x;
      assert [] + x == x;
    } else {
      var tail := Join(sep, xs[1..]);
      assert Join(sep, xs) == x + (sep + tail);
      SplitFieldsSkip(x, sep + tail, sep, []);
      assert StartsWith(sep + tail, sep);
      assert (sep + tail)[|sep|..] == tail;
      SplitFieldsJoin(xs[1..], sep);
      assert [] + x == x;
      assert xs == [x] + xs[1..];
    }
  }

  /** `split` inverts `join` on non-empty fields free of the separator's first
      character. */
  lemma SplitJoin(xs: seq<string>, sep: string)
    requires |sep| > 0 && xs != []
    requires forall k :: 0 <= k < |xs| ==> xs[k] != []
    requires forall k, i :: 0 <= k < |xs| && 0 <= i < |xs[k]| ==> xs[k][i] != sep[0]
    ensures Split(Join(sep, xs), sep) == xs
  {
    SplitFieldsJoin(xs, sep);
    JoinStartsWithFirst(sep, xs);
    assert Join(sep, xs) != [];
  }

  /** `BufferedReader.readLine` on the characters still to come: the line up to
      the first `\n`, `\r` or `\r\n` (or the end of input), and what follows it.
      The line holds no break, and the input is the line, one terminator
      (a lone `\r` only when no `\n` follows it, none only at the end) and
      the rest. */
  function ScanLine(s: string): (r: (string, string))
    ensures NoLineBreak(r.0)
    ensures || (s == r.0 && r.1 == [])
            || s == r.0 + "\n" + r.1
            || s == r.0 + "\r\n" + r.1
            || (s == r.0 + "\r" + r.1 && (r.1 == [] || r.1[0] != '\n'))
  {
    if s == [] then ([], [])
    else if s[0] == '\n' then ([], s[1..])
    else if s[0] == '\r' then ([], if |s| > 1 && s[1] == '\n' then s[2..] else s[1..])
    else
      var (line, rest) := ScanLine(s[1..]);
      assert s == [s[0]] + s[1..];
      ([s[0]] + line, rest)
  }

  /** `readLine()`: `null` once the input is exhausted. */
  function ReadLine(s: string): Option<(string, string)> {
    if s == [] then None else Some(ScanLine(s))
  }

  predicate NoLineBreak(s: string) {
    forall i :: 0 <= i < |s| ==> s[i] != '\n' && s[i] != '\r'
  }

  /** A CRLF-terminated line without line breaks reads back as itself. */
  lemma {:induction false} ReadLineCrlf(line: string, rest: string)
    requires NoLineBreak(line)
    ensures ReadLine(line + "\r\n" + rest) == Some((line, rest))
  {
    if line == [] {
      assert line + "\r\n" + rest == "\r\n" + rest;
    } else {
      assert (line + "\r\n" + rest)[1..] == line[1..] + "\r\n" + rest;
      ReadLineCrlf(line[1..], rest);
      assert [line[0]] + line[1..] == line;
    }
  }
}
