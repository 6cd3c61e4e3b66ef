/**
 * The worklist read from standard input: every line is split on whitespace
 * and unpacked into exactly two fields, a source path and a destination
 * directory (vcfs_to_aspera.py:64-67).
 */
module WorkList {
  import opened Wrappers

  /** One unit of work: the VCF to process and the directory it goes to. */
  datatype WorkItem = WorkItem(source: string, dest: string)

  /** The ValueError of `a, b = ...`: line `line` split into `found` fields. */
  datatype UnpackError = UnpackError(line: nat, found: nat)

  /** The characters Python's `str.isspace` accepts, which is what
      `str.split()` without a separator splits on. */
  predicate IsSpace(c: char)
  {
    c == ' ' || '\t' <= c <= '\r' || '\U{1c}' <= c <= '\U{1f}'
    || c == '\U{85}' || c == '\U{a0}' || c == '\U{1680}'
    || '\U{2000}' <= c <= '\U{200a}' || c == '\U{2028}' || c == '\U{2029}'
    || c == '\U{202f}' || c == '\U{205f}' || c == '\U{3000}'
  }

  predicate NoSpace(s: string)
  {
    forall i :: 0 <= i < |s| ==> !IsSpace(s[i])
  }

  predicate AllSpace(s: string)
  {
    forall i :: 0 <= i < |s| ==> IsSpace(s[i])
  }

  /** The longest whitespace-free prefix of `s`. */
  function Token(s: string): (t: string)
    ensures t <= s && NoSpace(t)
    ensures |t| < |s| ==> IsSpace(s[|t|])
  {
    if s == [] || IsSpace(s[0]) then [] else [s[0]] + Token(s[1..])
  }

  /** `str.split()`: the maximal runs of non-whitespace characters, in order. */
  function Fields(s: string): (fs: seq<string>)
    ensures forall i :: 0 <= i < |fs| ==> fs[i] != [] && NoSpace(fs[i])
    decreases |s|
  {
    if s == [] then []
    else if IsSpace(s[0]) then Fields(s[1..])
    else
      var t := Token(s);
      [t] + Fields(s[|t|..])
  }

  /** `str.rstrip()`: `s` without its trailing whitespace. */
  function RStrip(s: string): (r: string)
    ensures r <= s && AllSpace(s[|r|..])
    ensures r == [] || !IsSpace(r[|r| - 1])
  {
    if s == [] || !IsSpace(s[|s| - 1]) then s
    else
      var r := RStrip(s[..|s| - 1]);
      assert s[|r|..] == s[..|s| - 1][|r|..] + [s[|s| - 1]];
      r
  }

  /** The fields joined by single spaces: the shape of a well-formed line. */
  function JoinSpace(fs: seq<string>): string
  {
    if fs == [] then []
    else if |fs| == 1 then fs[0]
    else fs[0] + " " + JoinSpace(fs[1..])
  }

  /** `a, b = raw_line.rstrip().split()`; the error carries the field count. */
  function ParseLine(line: string): (r: Result<WorkItem, nat>)
    ensures r.Ok? <==> |Fields(line)| == 2
    ensures r.Ok? ==> Fields(line) == [r.value.source, r.value.dest]
    ensures r.Err? ==> r.error == |Fields(line)|
  {
    FieldsRStrip(line);
    var fs := Fields(RStrip(line));
    if |fs| == 2 then Ok(WorkItem(fs[0], fs[1])) else Err(|fs|)
  }

  /** The loop over `sys.stdin` that appends every parsed pair to the
      back of the deque; the first malformed line aborts the script. */
  method ReadWorkList(lines: seq<string>) returns (r: Result<seq<WorkItem>, UnpackError>)
    ensures r.Ok? <==> forall i :: 0 <= i < |lines| ==> ParseLine(lines[i]).Ok?
    ensures r.Ok? ==> |r.value| == |lines|
    ensures r.Ok? ==> forall i :: 0 <= i < |lines| ==> ParseLine(lines[i]) == Ok(r.value[i])
    ensures r.Err? ==> r.error.line < |lines|
                       && ParseLine(lines[r.error.line]) == Err(r.error.found)
                       && forall i :: 0 <= i < r.error.line ==> ParseLine(lines[i]).Ok?
  {
    var workList: seq<WorkItem> := [];
    var n := 0;
    while n < |lines|
      invariant n <= |lines| && |workList| == n
      invariant forall i :: 0 <= i < n ==> ParseLine(lines[i]) == Ok(workList[i])
    {
      var parsed := ParseLine(lines[n]);
      if parsed.Err? {
        return Err(UnpackError(n, parsed.error));
      }
      workList := workList + [parsed.value];
      n := n + 1;
    }
    return Ok(workList);
  }

  lemma {:induction false} FieldsOfSpaces(s: string)
    requires AllSpace(s)
    ensures Fields(s) == []
    decreases |s|
  {
    if s != [] {
      FieldsOfSpaces(s[1..]);
    }
  }

  /** A whitespace-free prefix followed by whitespace (or nothing) is the token. */
  lemma {:induction false} TokenOf(t: string, rest: string)
    requires NoSpace(t)
    requires rest == [] || IsSpace(rest[0])
    ensures Token(t + rest) == t
    decreases |t|
  {
    if t == [] {
    } else {
      assert (t + rest)[1..] == t[1..] + rest;
      TokenOf(t[1..], rest);
    }
  }

  /** Trailing whitespace never changes the fields. */
  lemma {:induction false} FieldsTrailing(s: string, w: string)
    requires AllSpace(w)
    ensures Fields(s + w) == Fields(s)
    decreases |s|
  {
    if s == [] {
      assert s + w == w;
      FieldsOfSpaces(w);
    } else if IsSpace(s[0]) {
      assert (s + w)[1..] == s[1..] + w;
      FieldsTrailing(s[1..], w);
    } else {
      var t := Token(s);
      assert s == t + s[|t|..];
      assert s + w == t + (s[|t|..] + w);
      TokenOf(t, s[|t|..] + w);
      assert (s + w)[|t|..] == s[|t|..] + w;
      FieldsTrailing(s[|t|..], w);
    }
  }

  /** The `rstrip()` before `split()` in the source has no effect. */
  lemma FieldsRStrip(s: string)
    ensures Fields(RStrip(s)) == Fields(s)
  {
    var r := RStrip(s);
    assert s == r + s[|r|..];
    FieldsTrailing(r, s[|r|..]);
  }

  /** A field followed by a space splits off as the first field. */
  lemma FieldsSpaced(f: string, rest: string)
    requires f != [] && NoSpace(f)
    ensures Fields(f + " " + rest) == [f] + Fields(rest)
  {
    var s := f + " " + rest;
    assert s == f + (" " + rest);
    TokenOf(f, " " + rest);
    assert s[|f|..] == " " + rest;
    assert (" " + rest)[1..] == rest;
  }

  /** Splitting undoes joining with single spaces. */
  lemma {:induction false} FieldsJoin(fs: seq<string>)
    requires forall i :: 0 <= i < |fs| ==> fs[i] != [] && NoSpace(fs[i])
    ensures Fields(JoinSpace(fs)) == fs
  {
    if fs == [] {
    } else if |fs| == 1 {
      TokenOf(fs[0], []);
      assert fs[0] + [] == fs[0];
      assert fs[0][|fs[0]|..] == [];
    } else {
      FieldsSpaced(fs[0], JoinSpace(fs[1..]));
      FieldsJoin(fs[1..]);
      assert fs == [fs[0]] + fs[1..];
    }
  }

  /** A line written as `source dest` with a newline parses back to the item. */
  lemma LineRoundTrip(item: WorkItem)
    requires item.source != [] && NoSpace(item.source)
    requires item.dest != [] && NoSpace(item.dest)
    ensures ParseLine(item.source + " " + item.dest + "\n") == Ok(item)
  {
    var fs := [item.source, item.dest];
    assert JoinSpace(fs[1..]) == item.dest;
    assert JoinSpace(fs) == item.source + " " + item.dest;
    FieldsJoin(fs);
    FieldsTrailing(item.source + " " + item.dest, "\n");
  }

  /** Leading whitespace never changes the fields. */
  lemma {:induction false} FieldsLeading(w: string, s: string)
    requires AllSpace(w)
    ensures Fields(w + s) == Fields(s)
    decreases |w|
  {
    if w != [] {
      assert (w + s)[0] == w[0] && IsSpace(w[0]);
      assert (w + s)[1..] == w[1..] + s;
      assert Fields(w + s) == Fields(w[1..] + s);
      FieldsLeading(w[1..], s);
    } else {
      assert w + s == s;
    }
  }

  /** A field followed by any non-empty run of whitespace splits off as
      the first field. */
  lemma FieldsSeparated(f: string, w: string, rest: string)
    requires f != [] && NoSpace(f)
    requires w != [] && AllSpace(w)
    ensures Fields(f + w + rest) == [f] + Fields(rest)
  {
    var s := f + w + rest;
    assert s == f + (w + rest);
    TokenOf(f, w + rest);
    assert s[|f|..] == w + rest;
    FieldsLeading(w, rest);
  }

  /** Every line made of two whitespace-free names, with any whitespace
      before, between (at least one character) and after, unpacks into
      those two names. */
  lemma ParseLineOf(w0: string, a: string, w1: string, b: string, w2: string)
    requires AllSpace(w0) && AllSpace(w1) && w1 != [] && AllSpace(w2)
    requires a != [] && NoSpace(a) && b != [] && NoSpace(b)
    ensures ParseLine(w0 + a + w1 + b + w2) == Ok(WorkItem(a, b))
  {
    var line := w0 + a + w1 + b + w2;
    assert line == w0 + (a + w1 + (b + w2));
    FieldsLeading(w0, a + w1 + (b + w2));
    FieldsSeparated(a, w1, b + w2);
    FieldsTrailing(b, w2);
    assert b + [] == b;
    TokenOf(b, []);
    assert b[|b|..] == [];
    assert Fields(b) == [b];
    assert Fields(line) == [a, b];
    FieldsRStrip(line);
  }

  /** The longest all-whitespace prefix of `s`. */
  function Leading(s: string): (w: string)
    ensures w <= s && AllSpace(w)
    ensures |w| < |s| ==> !IsSpace(s[|w|])
  {
    if s == [] || !IsSpace(s[0]) then [] else [s[0]] + Leading(s[1..])
  }

  /** A string whose split is empty is all whitespace. */
  lemma {:induction false} NoFieldsAllSpace(s: string)
    requires Fields(s) == []
    ensures AllSpace(s)
    decreases |s|
  {
    if s != [] {
      NoFieldsAllSpace(s[1..]);
    }
  }

  /** The first field starts at `k`, after the leading whitespace; after
      it comes whitespace or nothing, followed by the remaining fields. */
  lemma FieldsHead(s: string, f: string, fs: seq<string>) returns (k: nat)
    requires Fields(s) == [f] + fs
    ensures k + |f| <= |s| && s[k..k + |f|] == f && AllSpace(s[..k])
    ensures k + |f| < |s| ==> IsSpace(s[k + |f|])
    ensures Fields(s[k + |f|..]) == fs
  {
    k := |Leading(s)|;
    assert s[..k] == Leading(s);
    FieldsSkipLeading(s);
    var u := s[k..];
    assert Fields(u) != [];
    FieldsHeadToken(u, f, fs);
    SuffixSlices(s, k, |f|);
  }

  /** Dropping the leading whitespace keeps the fields. */
  lemma FieldsSkipLeading(s: string)
    ensures Fields(s[|Leading(s)|..]) == Fields(s)
  {
    var w := Leading(s);
    assert s == w + s[|w|..];
    FieldsLeading(w, s[|w|..]);
  }

  /** The case of `FieldsHead` where `s` starts with its first field. */
  lemma FieldsHeadToken(s: string, f: string, fs: seq<string>)
    requires Fields(s) == [f] + fs && !IsSpace(s[0])
    ensures |f| <= |s| && s[..|f|] == f
    ensures |f| < |s| ==> IsSpace(s[|f|])
    ensures Fields(s[|f|..]) == fs
  {
    var t := Token(s);
    assert Fields(s) == [t] + Fields(s[|t|..]);
    assert Fields(s)[0] == t && Fields(s)[1..] == Fields(s[|t|..]);
    assert ([f] + fs)[0] == f && ([f] + fs)[1..] == fs;
  }

  /** A line split into exactly one field `b`: whitespace, `b` at `j`,
      whitespace; the first run is non-empty when the line starts with it. */
  lemma OneField(r: string, b: string) returns (j: nat)
    requires Fields(r) == [b]
    ensures j + |b| <= |r| && r[j..j + |b|] == b && AllSpace(r[..j]) && AllSpace(r[j + |b|..])
    ensures 0 < |r| && IsSpace(r[0]) ==> 0 < j
  {
    assert [b] == [b] + [];
    j := FieldsHead(r, b, []);
    NoFieldsAllSpace(r[j + |b|..]);
    assert Fields(r)[0] == b;
    assert r[j] == b[0];
  }

  /** Conversely, a line unpacks into `(a, b)` only if it is `a` and `b`
      separated by whitespace, with only whitespace around them. */
  lemma ParseLineShape(line: string, a: string, b: string)
    requires ParseLine(line) == Ok(WorkItem(a, b))
    ensures exists w0, w1, w2 :: AllSpace(w0) && AllSpace(w1) && w1 != [] && AllSpace(w2)
                                 && line == w0 + a + w1 + b + w2
  {
    assert Fields(line) == [a] + [b];
    var k, j := TwoFieldsCut(line, a, b);
    var w0, w1, w2 := ShapeParts(line, a, b, k, j);
  }

  /** The three whitespace runs of a line cut around `a` at `k` and around
      `b` at `j` in the rest. */
  lemma ShapeParts(line: string, a: string, b: string, k: nat, j: nat) returns (w0: string, w1: string, w2: string)
    requires k + |a| < |line| && line[k..k + |a|] == a && AllSpace(line[..k])
    requires var r := line[k + |a|..];
      0 < j && j + |b| <= |r| && r[j..j + |b|] == b && AllSpace(r[..j]) && AllSpace(r[j + |b|..])
    ensures AllSpace(w0) && AllSpace(w1) && w1 != [] && AllSpace(w2)
    ensures line == w0 + a + w1 + b + w2
  {
    var r := line[k + |a|..];
    w0, w1, w2 := line[..k], r[..j], r[j + |b|..];
    Split3(line, k, k + |a|);
    Split3(r, j, j + |b|);
    Assoc(w0 + a, w1 + b, w2);
    Assoc(w0 + a, w1, b);
  }

  /** Where the two fields of a two-field line start and end. */
  lemma TwoFieldsCut(line: string, a: string, b: string) returns (k: nat, j: nat)
    requires Fields(line) == [a] + [b]
    ensures k + |a| < |line| && line[k..k + |a|] == a && AllSpace(line[..k])
    ensures var r := line[k + |a|..];
      0 < j && j + |b| <= |r| && r[j..j + |b|] == b && AllSpace(r[..j]) && AllSpace(r[j + |b|..])
  {
    k := FieldsHead(line, a, [b]);
    j := OneField(line[k + |a|..], b);
  }

  lemma SuffixSlices(s: string, k: nat, n: nat)
    requires k + n <= |s|
    ensures s[k..][..n] == s[k..k + n] && s[k..][n..] == s[k + n..]
  {
  }

  lemma Assoc(x: string, y: string, z: string)
    ensures x + (y + z) == x + y + z
  {
  }

  lemma Split3(s: string, i: nat, j: nat)
    requires i <= j <= |s|
    ensures s == s[..i] + s[i..j] + s[j..]
  {
  }

  /** Removes every whitespace character, keeping the rest in order. */
  function Squeeze(s: string): string
  {
    if s == [] then [] else (if IsSpace(s[0]) then [] else [s[0]]) + Squeeze(s[1..])
  }

  function Concat(fs: seq<string>): string
  {
    if fs == [] then [] else fs[0] + Concat(fs[1..])
  }

  lemma {:induction false} SqueezeAppend(x: string, y: string)
    ensures Squeeze(x + y) == Squeeze(x) + Squeeze(y)
    decreases |x|
  {
    if x != [] {
      var h := if IsSpace(x[0]) then [] else [x[0]];
      assert (x + y)[0] == x[0];
      assert (x + y)[1..] == x[1..] + y;
      assert Squeeze(x + y) == h + Squeeze(x[1..] + y);
      SqueezeAppend(x[1..], y);
      assert Squeeze(x) == h + Squeeze(x[1..]);
    } else {
      assert x + y == y;
    }
  }

  lemma {:induction false} SqueezeNoSpace(t: string)
    requires NoSpace(t)
    ensures Squeeze(t) == t
    decreases |t|
  {
    if t != [] {
      SqueezeNoSpace(t[1..]);
    }
  }

  /** No character is lost, added or reordered: the fields, put back
      together, are the line's non-whitespace characters in order. */
  lemma {:induction false} FieldsKeepText(s: string)
    ensures Concat(Fields(s)) == Squeeze(s)
    decreases |s|
  {
    if s == [] {
    } else if IsSpace(s[0]) {
      FieldsKeepText(s[1..]);
    } else {
      var t := Token(s);
      assert s == t + s[|t|..];
      SqueezeAppend(t, s[|t|..]);
      SqueezeNoSpace(t);
      FieldsKeepText(s[|t|..]);
      assert Fields(s)[1..] == Fields(s[|t|..]);
    }
  }
}
