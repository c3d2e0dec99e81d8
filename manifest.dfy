/** The list file that `build_list_file` writes for the concat demuxer: one
    line `file '<path>'` per resolved path, in order. The path is written
    verbatim between single quotes, without escaping. */
module Manifest {
  import opened Wrappers

  const Prefix: string := "file '"

  /** The line written for one path: the path appears verbatim between the
      quotes, every character of it in place, nothing escaped. */
  function Line(path: string): (line: string)
    ensures |line| == |Prefix| + |path| + 2
    ensures line[..|Prefix|] == Prefix && line[|line| - 2..] == "'\n"
    ensures line[|Prefix|..|line| - 2] == path
  {
    Prefix + path + "'\n"
  }

  /** The number of characters of all the paths together. */
  function PathChars(paths: seq<string>): nat
  {
    if paths == [] then 0 else |paths[0]| + PathChars(paths[1..])
  }

  /** The whole text of the list file for the ordered paths: the characters
      of the paths and eight characters of framing per path, nothing more. */
  function ManifestText(paths: seq<string>): (text: string)
    ensures |text| == PathChars(paths) + 8 * |paths|
  {
    if paths == [] then "" else Line(paths[0]) + ManifestText(paths[1..])
  }

  /** `build_list_file`: the loop that writes one line per path into the
      file buffer; the text it leaves is `ManifestText(paths)`. */
  method BuildListFile(paths: seq<string>) returns (content: string)
    ensures content == ManifestText(paths)
  {
    content := "";
    for i := 0 to |paths|
      invariant content == ManifestText(paths[..i])
    {
      ManifestAppend(paths[..i], [paths[i]]);
      assert paths[..i + 1] == paths[..i] + [paths[i]];
      content := content + Line(paths[i]);
    }
    assert paths[..|paths|] == paths;
  }

  /** The text of a concatenation is the concatenation of the texts. */
  lemma {:induction false} ManifestAppend(a: seq<string>, b: seq<string>)
    ensures ManifestText(a + b) == ManifestText(a) + ManifestText(b)
    decreases |a|
  {
    if a == [] {
      assert a + b == b;
    } else {
      assert (a + b)[0] == a[0] && (a + b)[1..] == a[1..] + b;
      ManifestAppend(a[1..], b);
    }
  }

  /** One line per path, in order: the text is the lines of the paths before
      `i`, then the line of path `i`, then the lines of the paths after it. */
  lemma ManifestLineAt(paths: seq<string>, i: nat)
    requires i < |paths|
    ensures ManifestText(paths) ==
      ManifestText(paths[..i]) + Line(paths[i]) + ManifestText(paths[i + 1..])
  {
    var before, here, after := paths[..i], paths[i..], paths[i + 1..];
    assert paths == before + here;
    assert here == [paths[i]] + after;
    ManifestAround(before, paths[i], after);
  }

  /** The text of `before`, then `p`, then `after`. */
  lemma ManifestAround(before: seq<string>, p: string, after: seq<string>)
    ensures ManifestText(before + ([p] + after)) ==
      ManifestText(before) + Line(p) + ManifestText(after)
  {
    ManifestAppend(before, [p] + after);
    ManifestCons(p, after);
    ConcatAssoc(ManifestText(before), Line(p), ManifestText(after));
  }

  /** The text of a list that starts with `p` starts with the line of `p`. */
  lemma ManifestCons(p: string, rest: seq<string>)
    ensures ManifestText([p] + rest) == Line(p) + ManifestText(rest)
  {
    assert ([p] + rest)[1..] == rest;
  }

  lemma ConcatAssoc(a: string, b: string, c: string)
    ensures a + (b + c) == a + b + c
  {
  }

  /** A path that the list-file syntax can carry unchanged: no quote to close
      the quoted string early, no newline to end the line early. */
  predicate Safe(path: string)
  {
    '\'' !in path && '\n' !in path
  }

  /** The index of the first newline of `s`, if any. */
  function FindNewline(s: string): (k: Option<nat>)
    ensures k.Some? ==> k.value < |s| && s[k.value] == '\n' && '\n' !in s[..k.value]
    ensures k.None? ==> '\n' !in s
  {
    if s == [] then None
    else if s[0] == '\n' then Some(0)
    else match FindNewline(s[1..])
      case None => None
      case Some(j) =>
        assert s[..j + 1] == [s[0]] + s[1..][..j];
        Some(j + 1)
  }

  /** Reads one line (without its newline) back to the path it names. */
  function ParseLine(line: string): (r: Option<string>)
    ensures r.Some? ==> Line(r.value) == line + "\n" && '\'' !in r.value
  {
    if |line| >= |Prefix| + 1 && line[..|Prefix|] == Prefix && line[|line| - 1] == '\''
       && '\'' !in line[|Prefix|..|line| - 1]
    then
      assert line == line[..|Prefix|] + line[|Prefix|..|line| - 1] + [line[|line| - 1]];
      Some(line[|Prefix|..|line| - 1])
    else None
  }

  /** Reads a list file back to its paths, line by line. */
  function ParseManifest(text: string): Option<seq<string>>
    decreases |text|
  {
    if text == [] then Some([])
    else match FindNewline(text)
      case None => None
      case Some(k) =>
        match ParseLine(text[..k])
        case None => None
        case Some(p) =>
          match ParseManifest(text[k + 1..])
          case None => None
          case Some(ps) => Some([p] + ps)
  }

  lemma {:induction false} FindNewlineAt(s: string, k: nat)
    requires k < |s| && s[k] == '\n' && '\n' !in s[..k]
    ensures FindNewline(s) == Some(k)
    decreases k
  {
    if k > 0 {
      assert s[..k][0] == s[0];
      assert s[1..][..k - 1] == s[..k][1..];
      assert forall c :: c in s[..k][1..] ==> c in s[..k];
      FindNewlineAt(s[1..], k - 1);
    }
  }

  /** Reading the first line of a text that starts with the line of a safe path. */
  lemma ParseFirstLine(p: string, rest: string)
    requires Safe(p)
    ensures FindNewline(Line(p) + rest) == Some(|p| + 7)
    ensures (Line(p) + rest)[..|p| + 7] == Prefix + p + "'"
    ensures ParseLine(Prefix + p + "'") == Some(p)
    ensures (Line(p) + rest)[|p| + 8..] == rest
  {
    var text := Line(p) + rest;
    var line := Prefix + p + "'";
    assert Line(p) == line + "\n";
    assert text[..|p| + 7] == line;
    assert '\n' !in line by {
      assert line == Prefix + (p + "'");
      assert forall c :: c in line ==> c in Prefix || c in p || c == '\'';
    }
    FindNewlineAt(text, |p| + 7);
    assert line[..|Prefix|] == Prefix;
    assert line[|Prefix|..|line| - 1] == p;
  }

  /** Reading the list file of safe paths gives back those paths, in order:
      one line per path. */
  lemma {:induction false} ParseManifestText(paths: seq<string>)
    requires forall i :: 0 <= i < |paths| ==> Safe(paths[i])
    ensures ParseManifest(ManifestText(paths)) == Some(paths)
    decreases |paths|
  {
    if paths != [] {
      var p, ps := paths[0], paths[1..];
      assert paths == [p] + ps;
      ParseFirstLine(p, ManifestText(ps));
      ParseManifestText(ps);
    }
  }

  /** Every path read back from a list file is safe. */
  lemma {:induction false} ParsedPathsAreSafe(text: string)
    requires ParseManifest(text).Some?
    ensures forall i :: 0 <= i < |ParseManifest(text).value| ==> Safe(ParseManifest(text).value[i])
    decreases |text|
  {
    if text != [] {
      var k := FindNewline(text).value;
      var p := ParseLine(text[..k]).value;
      assert '\n' !in p by {
        assert p == text[..k][|Prefix|..|text[..k]| - 1];
        assert forall c :: c in p ==> c in text[..k];
      }
      ParsedPathsAreSafe(text[k + 1..]);
    }
  }

  /** With this reader, the list file round-trips exactly when no path holds
      a quote or a newline. The if-half is the round trip of the writer; the
      only-if half holds because this reader accepts no quote inside a path,
      escaped or not. */
  lemma RoundTripIffSafe(paths: seq<string>)
    ensures ParseManifest(ManifestText(paths)) == Some(paths) <==>
      forall i :: 0 <= i < |paths| ==> Safe(paths[i])
  {
    if forall i :: 0 <= i < |paths| ==> Safe(paths[i]) {
      ParseManifestText(paths);
    } else if ParseManifest(ManifestText(paths)) == Some(paths) {
      ParsedPathsAreSafe(ManifestText(paths));
    }
  }

  /** The writer does not escape: one path that holds a quote, a newline and
      the start of a second line writes the same text as two paths, so no
      reader can tell the two lists apart. */
  lemma UnescapedPathsCollide(a: string, b: string)
    ensures ManifestText([a + "'\n" + Prefix + b]) == ManifestText([a, b])
    ensures [a + "'\n" + Prefix + b] != [a, b]
  {
    var close, x := "'\n", a + "'\n" + Prefix + b;
    ManifestCons(x, []);
    ManifestCons(a, [b]);
    ManifestCons(b, []);
    assert [a, b] == [a] + [b];
    LinesJoin(Prefix, a, close, b);
  }

  /** The line of `a + close + pre + b` is the line of `a` then the line of `b`. */
  lemma LinesJoin(pre: string, a: string, close: string, b: string)
    ensures pre + (a + close + pre + b) + close == (pre + a + close) + (pre + b + close)
  {
  }

  /** The path `/v/a'<newline>file '/v/b` writes the list file of the two
      paths `/v/a` and `/v/b`. */
  lemma OnePathWritesTwoLines()
    ensures ManifestText(["/v/a'\nfile '/v/b"]) == ManifestText(["/v/a", "/v/b"])
  {
    var a, b := "/v/a", "/v/b";
    UnescapedPathsCollide(a, b);
    var closed := a + "'\n";
    assert closed == "/v/a'\n";
    var next := closed + Prefix;
    assert next == "/v/a'\nfile '";
    assert next + b == "/v/a'\nfile '/v/b";
  }
}
