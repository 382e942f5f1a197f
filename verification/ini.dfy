/**
  The INI section parser of the map file (`parseINI`). The text is split into
  lines at every run of carriage returns and line feeds; each line is then
  classified, in this order, as a comment (`; ...`), a `key = value` pair, a
  `[Name]` header, or an empty line. Pairs go into the current section, or to
  the top level when there is none; a header binds its name to a fresh, empty
  section (so a repeated header discards what the earlier one collected); an
  empty line ends the current section.
 */
module Ini {
  import opened Wrappers
  import opened JsText
  import opened OrderedMap

  // ------------------------------------------------------------ line split

  predicate IsNewline(c: char)
  {
    c == '\r' || c == '\n'
  }

  predicate NoNewline(s: string)
  {
    forall i | 0 <= i < |s| :: !IsNewline(s[i])
  }

  /** The index of the first carriage return or line feed. */
  function FirstNewline(s: string): (r: Option<nat>)
    ensures r.None? ==> NoNewline(s)
    ensures r.Some? ==> r.value < |s| && IsNewline(s[r.value]) && NoNewline(s[..r.value])
  {
    if |s| == 0 then None
    else if IsNewline(s[0]) then Some(0)
    else
      match FirstNewline(s[1..])
      case None => None
      case Some(i) =>
        assert s[..i + 1] == [s[0]] + s[1..][..i];
        Some(i + 1)
  }

  /** The end of the run of newline characters that starts at or after `i`. */
  function NewlineRunEnd(s: string, i: nat): (j: nat)
    requires i <= |s|
    ensures i <= j <= |s|
    ensures forall k | i <= k < j :: IsNewline(s[k])
    ensures j < |s| ==> !IsNewline(s[j])
    decreases |s| - i
  {
    if i < |s| && IsNewline(s[i]) then NewlineRunEnd(s, i + 1) else i
  }

  /**
    `data.split(/[\r\n]+/)`: the pieces between maximal runs of newline
    characters. Only the first and the last piece can be empty, so the
    empty-line rule of the parser can fire only at the very start or end.
   */
  function SplitLines(s: string): (lines: seq<string>)
    ensures |lines| >= 1
    ensures forall i | 0 <= i < |lines| :: NoNewline(lines[i])
    ensures |s| > 0 && !IsNewline(s[0]) ==> |lines[0]| > 0
    ensures forall i | 0 < i < |lines| - 1 :: |lines[i]| > 0
    decreases |s|
  {
    match FirstNewline(s)
    case None => [s]
    case Some(i) =>
      var j := NewlineRunEnd(s, i + 1);
      var rest := SplitLines(s[j..]);
      assert |rest| >= 2 ==> |s[j..]| > 0;
      [s[..i]] + rest
  }

  /** Lines free of newlines, all non-empty but possibly the first and last, survive a join and split. */
  lemma {:induction false} SplitJoinedLines(lines: seq<string>)
    requires |lines| >= 1
    requires forall i | 0 <= i < |lines| :: NoNewline(lines[i])
    requires forall i | 0 < i < |lines| - 1 :: |lines[i]| > 0
    ensures SplitLines(Join(lines, '\n')) == lines
    decreases |lines|
  {
    if |lines| == 1 {
      assert FirstNewline(lines[0]).None?;
    } else {
      var a := lines[0];
      var tail := lines[1..];
      var rest := Join(tail, '\n');
      var s := Join(lines, '\n');
      assert s == a + ['\n'] + rest;
      assert |rest| > 0 ==> !IsNewline(rest[0]) by {
        if |tail| >= 2 {
          assert |lines[1]| > 0;
          assert rest == lines[1] + ['\n'] + Join(tail[1..], '\n');
        }
      }
      FirstNewlineAt(s, |a|);
      assert s[|a| + 1..] == rest;
      assert NewlineRunEnd(s, |a| + 1) == |a| + 1;
      assert s[..|a|] == a;
      SplitJoinedLines(tail);
    }
  }

  lemma {:induction false} FirstNewlineAt(s: string, i: nat)
    requires i < |s| && IsNewline(s[i]) && NoNewline(s[..i])
    ensures FirstNewline(s) == Some(i)
  {
  }

  // ------------------------------------------------------ line classifier

  /** What one line is, trying the source's patterns in its order: comment, pair, header, empty. */
  datatype Line = Comment | Param(key: string, value: string) | Header(name: string) | Blank | Other

  /** `/^\s*;.*$/`: a ';' after optional white space, and no line terminator after it. */
  predicate CommentMatch(line: string)
  {
    var t := TrimStart(line);
    |t| > 0 && t[0] == ';' && NoLineTerminator(t[1..])
  }

  /** The key the pair pattern captures from the text before the first '='. */
  function ParamKey(pre: string): (k: string)
    requires |pre| > 0
    ensures |k| > 0
  {
    var t := Trim(pre);
    if |t| > 0 then t else pre[|pre| - 1..]
  }

  /**
    `/^\s*([^=]+?)\s*=\s*(.*?)\s*$/`: the text before the first '=' is not
    empty, and the trimmed text after it has no line terminator. The key is
    that text trimmed (or its last character when it is all white space); the
    value is the rest trimmed.
   */
  function ParamMatch(line: string): (r: Option<(string, string)>)
    ensures r.Some? ==> '=' in line && '=' !in r.value.0 && |r.value.0| > 0
    ensures r.Some? ==> Trim(r.value.1) == r.value.1 && NoLineTerminator(r.value.1)
  {
    match IndexOf(line, '=')
    case None => None
    case Some(e) =>
      var pre := line[..e];
      var value := Trim(line[e + 1..]);
      if |pre| == 0 || !NoLineTerminator(value) then None
      else
        TrimOfTrimmed(value);
        TrimIsInfix(pre);
        Some((ParamKey(pre), value))
  }

  /** Trimming keeps a contiguous part of the text. */
  lemma {:induction false} TrimIsInfix(s: string)
    ensures forall c | c in Trim(s) :: c in s
  {
  }

  /**
    `/^\s*\[\s*([^\]]*)\s*\]\s*$/`: '[' after optional white space, then the
    first ']' followed only by white space. The name is the text in between
    with leading white space dropped; trailing white space stays in it.
   */
  function HeaderMatch(line: string): (r: Option<string>)
    ensures r.Some? ==> ']' !in r.value
  {
    var t := TrimStart(line);
    if |t| == 0 || t[0] != '[' then None
    else
      match IndexOf(t, ']')
      case None => None
      case Some(c) =>
        if AllSpace(t[c + 1..]) then
          var name := TrimStart(t[1..c]);
          assert forall x | x in name :: x in t[..c];
          Some(name)
        else None
  }

  function Classify(line: string): (r: Line)
    ensures r.Comment? <==> CommentMatch(line)
    ensures r.Blank? <==> |line| == 0
    ensures r.Param? ==> |r.key| > 0 && '=' !in r.key && Trim(r.value) == r.value
    ensures r.Header? ==> ']' !in r.name
  {
    if CommentMatch(line) then Comment
    else if ParamMatch(line).Some? then Param(ParamMatch(line).value.0, ParamMatch(line).value.1)
    else if HeaderMatch(line).Some? then Header(HeaderMatch(line).value)
    else if |line| == 0 then Blank
    else Other
  }

  /** A trimmed key without '=' or a leading ';', and a trimmed value, are read back from `key=value`. */
  lemma {:induction false} ParamLineRoundTrip(k: string, v: string)
    requires |k| > 0 && '=' !in k && k[0] != ';' && !IsSpace(k[0]) && !IsSpace(k[|k| - 1])
    requires |v| == 0 || (!IsSpace(v[0]) && !IsSpace(v[|v| - 1]))
    requires NoLineTerminator(v)
    ensures Classify(k + "=" + v) == Param(k, v)
  {
    var line := k + "=" + v;
    assert !CommentMatch(line) by {
      assert line[0] == k[0];
      TrimStartOfUnspaced(line);
    }
    assert ParamMatch(line) == Some((k, v)) by {
      assert line[..|k|] == k;
      IndexOfFirst(line, '=', |k|);
      assert line[|k| + 1..] == v;
      TrimOfTrimmed(v);
      TrimOfTrimmed(k);
    }
  }

  /** `[name]` is neither a comment nor a pair. */
  lemma {:induction false} HeaderLineNotParam(name: string)
    requires '=' !in name
    ensures !CommentMatch("[" + name + "]") && ParamMatch("[" + name + "]").None?
  {
  }

  /** The header pattern finds `name` in `[name]`. */
  lemma {:induction false} HeaderMatchOfLine(name: string)
    requires ']' !in name
    requires |name| == 0 || !IsSpace(name[0])
    ensures HeaderMatch("[" + name + "]") == Some(name)
  {
  }

  /** A name without ']' or '=' and without leading white space is read back from `[name]`. */
  lemma {:induction false} HeaderLineRoundTrip(name: string)
    requires ']' !in name && '=' !in name
    requires |name| == 0 || !IsSpace(name[0])
    ensures Classify("[" + name + "]") == Header(name)
  {
    HeaderLineNotParam(name);
    HeaderMatchOfLine(name);
  }

  // --------------------------------------------------------------- parser

  /** A top-level binding: a section object, or a string from a pair outside every section. */
  datatype Entry = Section(body: OMap<string>) | Text(value: string)

  /** The parser's state: the result so far and the current section name ("" when there is none). */
  datatype IniState = IniState(result: OMap<Entry>, section: string)

  predicate WellFormed(st: IniState)
  {
    && st.result.Valid()
    && (forall k | k in st.result.vals && st.result.vals[k].Section? :: st.result.vals[k].body.Valid())
    && (st.section != "" ==> st.section in st.result.vals && st.result.vals[st.section].Section?)
  }

  /**
    One iteration of the line loop. A current section named "" (from the
    header "[]") is falsy in the source and behaves as no section at all.
   */
  function Step(st: IniState, line: Line): (r: IniState)
    requires WellFormed(st)
    ensures WellFormed(r)
  {
    match line
    case Comment => st
    case Param(k, v) =>
      if st.section != "" then
        var body := st.result.vals[st.section].body;
        IniState(Put(st.result, st.section, Section(Put(body, k, v))), st.section)
      else
        IniState(Put(st.result, k, Text(v)), st.section)
    case Header(n) => IniState(Put(st.result, n, Section(Empty())), n)
    case Blank => IniState(st.result, "")
    case Other => st
  }

  function ParseLines(st: IniState, lines: seq<string>): (r: IniState)
    requires WellFormed(st)
    ensures WellFormed(r)
    decreases |lines|
  {
    if |lines| == 0 then st else ParseLines(Step(st, Classify(lines[0])), lines[1..])
  }

  function Start(): (st: IniState)
    ensures WellFormed(st)
  {
    IniState(Empty(), "")
  }

  /** `parseINI(data)`. */
  function ParseIni(data: string): (r: OMap<Entry>)
    ensures ConfigValid(r)
  {
    ParseLines(Start(), SplitLines(data)).result
  }

  /** A parse result whose top level and every section are well-formed ordered maps. */
  predicate ConfigValid(c: OMap<Entry>)
  {
    c.Valid() && forall k | k in c.vals && c.vals[k].Section? :: c.vals[k].body.Valid()
  }

  /** The section bound to `name`, if `name` is bound to a section object. */
  function SectionOf(result: OMap<Entry>, name: string): (r: Option<OMap<string>>)
    ensures ConfigValid(result) && r.Some? ==> r.value.Valid()
  {
    if name in result.vals && result.vals[name].Section? then Some(result.vals[name].body) else None
  }

  // ---------------------------------------------------------- properties

  lemma {:induction false} ParseLinesAppend(st: IniState, a: seq<string>, b: seq<string>)
    requires WellFormed(st)
    ensures ParseLines(st, a + b) == ParseLines(ParseLines(st, a), b)
    decreases |a|
  {
    if |a| > 0 {
      assert (a + b)[1..] == a[1..] + b;
      ParseLinesAppend(Step(st, Classify(a[0])), a[1..], b);
    } else {
      assert a + b == b;
    }
  }

  function DropComments(lines: seq<string>): (r: seq<string>)
    ensures forall i | 0 <= i < |r| :: !CommentMatch(r[i])
  {
    if |lines| == 0 then []
    else if CommentMatch(lines[0]) then DropComments(lines[1..])
    else [lines[0]] + DropComments(lines[1..])
  }

  /** Comment lines have no effect on the result. */
  lemma {:induction false} CommentsIgnored(st: IniState, lines: seq<string>)
    requires WellFormed(st)
    ensures ParseLines(st, lines) == ParseLines(st, DropComments(lines))
    decreases |lines|
  {
    if |lines| > 0 {
      CommentsIgnored(Step(st, Classify(lines[0])), lines[1..]);
      if CommentMatch(lines[0]) {
        CommentsIgnored(st, lines[1..]);
      }
    }
  }

  /** The value of the last pair for `k` among `lines`, if there is one. */
  function LastValue(lines: seq<string>, k: string): Option<string>
  {
    if |lines| == 0 then None
    else
      match Classify(lines[|lines| - 1])
      case Param(k', v) => if k' == k then Some(v) else LastValue(lines[..|lines| - 1], k)
      case _ => LastValue(lines[..|lines| - 1], k)
  }

  predicate PairOrComment(line: string)
  {
    Classify(line).Param? || Classify(line).Comment?
  }

  /** A pair or comment inside the current section touches only that section's key. */
  lemma {:induction false} StepInSection(mid: IniState, line: Line, name: string)
    requires WellFormed(mid) && mid.section == name && name != ""
    requires line.Param? || line.Comment?
    ensures var r := Step(mid, line);
            && r.section == name
            && SectionOf(r.result, name).Some?
            && forall k :: Get(SectionOf(r.result, name).value, k) ==
                 (if line.Param? && line.key == k then Some(line.value)
                  else Get(SectionOf(mid.result, name).value, k))
  {
  }

  lemma {:induction false} LastValueSnoc(front: seq<string>, last: string, k: string)
    ensures LastValue(front + [last], k) ==
              (if Classify(last).Param? && Classify(last).key == k then Some(Classify(last).value)
               else LastValue(front, k))
  {
    assert (front + [last])[..|front|] == front;
  }

  lemma {:induction false} SplitLast<T>(s: seq<T>)
    requires |s| > 0
    ensures s == s[..|s| - 1] + [s[|s| - 1]]
  {
  }

  lemma {:induction false} ConsSnoc(x: string, body: seq<string>)
    requires |body| > 0
    ensures [x] + body == ([x] + body[..|body| - 1]) + [body[|body| - 1]]
  {
  }

  /** `r` is inside section `name`, which holds the last value of each pair among `body`. */
  ghost predicate HoldsLastValues(r: IniState, name: string, body: seq<string>)
  {
    && r.section == name
    && SectionOf(r.result, name).Some?
    && forall k :: Get(SectionOf(r.result, name).value, k) == LastValue(body, k)
  }

  lemma {:induction false} SectionStep(mid: IniState, name: string, front: seq<string>, last: string)
    requires WellFormed(mid) && name != "" && PairOrComment(last)
    requires HoldsLastValues(mid, name, front)
    ensures HoldsLastValues(Step(mid, Classify(last)), name, front + [last])
  {
    var r := Step(mid, Classify(last));
    StepInSection(mid, Classify(last), name);
    forall k
      ensures Get(SectionOf(r.result, name).value, k) == LastValue(front + [last], k)
    {
      LastValueSnoc(front, last, k);
    }
  }

  /**
    After a `[name]` header followed by pairs and comments, the section
    `name` holds exactly the keys of those pairs, each with the value of its
    last pair; whatever an earlier `[name]` section held is gone.
   */
  lemma {:induction false} SectionHoldsLastValues(st: IniState, header: string, name: string, body: seq<string>)
    requires WellFormed(st)
    requires Classify(header) == Header(name) && name != ""
    requires forall i | 0 <= i < |body| :: PairOrComment(body[i])
    ensures HoldsLastValues(ParseLines(st, [header] + body), name, body)
    decreases |body|
  {
    if |body| == 0 {
      HeaderOpensSection(st, header, name);
      assert [header] + body == [header];
    } else {
      var front := body[..|body| - 1];
      var last := body[|body| - 1];
      var mid := ParseLines(st, [header] + front);
      assert HoldsLastValues(mid, name, front) by {
        assert forall i | 0 <= i < |front| :: PairOrComment(front[i]) by {
          assert forall i | 0 <= i < |front| :: front[i] == body[i];
        }
        SectionHoldsLastValues(st, header, name, front);
      }
      assert ParseLines(st, [header] + body) == Step(mid, Classify(last)) by {
        ConsSnoc(header, body);
        ParseLinesSnoc(st, [header] + front, last);
      }
      assert HoldsLastValues(Step(mid, Classify(last)), name, body) by {
        assert PairOrComment(last);
        SectionStep(mid, name, front, last);
        SplitLast(body);
      }
    }
  }

  lemma {:induction false} HeaderOpensSection(st: IniState, header: string, name: string)
    requires WellFormed(st)
    requires Classify(header) == Header(name) && name != ""
    ensures HoldsLastValues(ParseLines(st, [header]), name, [])
  {
    assert ParseLines(st, [header]) == Step(st, Header(name));
  }

  /** The binding a pair outside every section leaves at the top level, if any pair among `lines` names `k`. */
  function TopLevelValue(lines: seq<string>, k: string, before: Option<Entry>): Option<Entry>
  {
    match LastValue(lines, k)
    case Some(v) => Some(Text(v))
    case None => before
  }

  /**
    Outside every section, a pair binds its key at the top level to the
    value as a string and touches no other key; no other kind of line but a
    header changes the top level, and none of them opens a section.
   */
  lemma {:induction false} StepAtTopLevel(st: IniState, line: Line)
    requires WellFormed(st) && st.section == "" && !line.Header?
    ensures var r := Step(st, line);
            && r.section == ""
            && forall k :: Get(r.result, k) ==
                 (if line.Param? && line.key == k then Some(Text(line.value)) else Get(st.result, k))
  {
  }

  /**
    Before the first header, the top level holds, for each key, the value of
    the last pair for it, and every other key keeps its earlier binding.
   */
  lemma {:induction false} TopLevelHoldsLastValues(st: IniState, lines: seq<string>)
    requires WellFormed(st) && st.section == ""
    requires forall i | 0 <= i < |lines| :: !Classify(lines[i]).Header?
    ensures var r := ParseLines(st, lines);
            && r.section == ""
            && forall k :: Get(r.result, k) == TopLevelValue(lines, k, Get(st.result, k))
    decreases |lines|
  {
    if |lines| > 0 {
      var front := lines[..|lines| - 1];
      var last := lines[|lines| - 1];
      assert forall i | 0 <= i < |front| :: !Classify(front[i]).Header? by {
        assert forall i | 0 <= i < |front| :: front[i] == lines[i];
      }
      TopLevelHoldsLastValues(st, front);
      var mid := ParseLines(st, front);
      SplitLast(lines);
      ParseLinesSnoc(st, front, last);
      StepAtTopLevel(mid, Classify(last));
      forall k
        ensures Get(ParseLines(st, lines).result, k) == TopLevelValue(lines, k, Get(st.result, k))
      {
        LastValueSnoc(front, last, k);
      }
    }
  }

  /** A file with no header is a flat list of keys, each bound to the value of its last pair. */
  lemma {:induction false} ParseIniWithoutSections(data: string)
    requires forall i | 0 <= i < |SplitLines(data)| :: !Classify(SplitLines(data)[i]).Header?
    ensures forall k :: Get(ParseIni(data), k) == TopLevelValue(SplitLines(data), k, None)
  {
    TopLevelHoldsLastValues(Start(), SplitLines(data));
  }

  lemma {:induction false} ParseLinesSnoc(st: IniState, a: seq<string>, x: string)
    requires WellFormed(st)
    ensures ParseLines(st, a + [x]) == Step(ParseLines(st, a), Classify(x))
  {
    ParseLinesAppend(st, a, [x]);
    assert ParseLines(ParseLines(st, a), [x]) == Step(ParseLines(st, a), Classify(x));
  }
}
