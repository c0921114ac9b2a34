/**
 * The agent's line-oriented tool-call parser: a reply is split on '\n';
 * a line holding `TOOL_NAME:` sets the tool name, any other line of the
 * form `PARAM_<word>: <value>` sets one parameter. Later lines overwrite
 * earlier ones.
 */
module ToolCall {
  import opened Events

  // ----- Substrings -----

  ghost predicate OccursAt(s: string, pat: string, i: int)
  {
    0 <= i && i + |pat| <= |s| && s[i..i + |pat|] == pat
  }

  /** The first occurrence of `pat` in `s` at or after `start` (Python's `str.find`). */
  function IndexFrom(s: string, pat: string, start: nat): Option<nat>
    requires start <= |s|
    decreases |s| - start
  {
    if start + |pat| > |s| then None
    else if s[start..start + |pat|] == pat then Some(start)
    else if start == |s| then None
    else IndexFrom(s, pat, start + 1)
  }

  /** The search finds the first occurrence at or after `start`, and None means there is none. */
  lemma {:induction false} IndexFromSpec(s: string, pat: string, start: nat)
    requires start <= |s|
    ensures IndexFrom(s, pat, start).Some? ==>
              var r := IndexFrom(s, pat, start).value;
              start <= r && OccursAt(s, pat, r) && forall j :: start <= j < r ==> !OccursAt(s, pat, j)
    ensures IndexFrom(s, pat, start).None? ==> forall j :: start <= j ==> !OccursAt(s, pat, j)
    decreases |s| - start
  {
    if start + |pat| <= |s| && s[start..start + |pat|] != pat && start < |s| {
      IndexFromSpec(s, pat, start + 1);
    }
  }

  function IndexOf(s: string, pat: string): Option<nat>
  {
    IndexFrom(s, pat, 0)
  }

  /** Python's `pat in s`. */
  predicate Contains(s: string, pat: string)
  {
    IndexOf(s, pat).Some?
  }

  lemma ContainsIff(s: string, pat: string)
    ensures Contains(s, pat) <==> exists i :: OccursAt(s, pat, i)
  {
    IndexFromSpec(s, pat, 0);
  }

  /** Python's `s.split(sep)[1]`: the text between the first and the second occurrence of `sep`, or the end. */
  function SecondPiece(s: string, sep: string): string
    requires Contains(s, sep)
  {
    var i := IndexOf(s, sep).value;
    IndexFromSpec(s, sep, 0);
    var rest := s[i + |sep|..];
    match IndexOf(rest, sep)
    case Some(j) => IndexFromSpec(rest, sep, 0); rest[..j]
    case None => rest
  }

  /** The piece starts right after the first separator and runs to the next separator or to the end. */
  lemma SecondPieceSpec(s: string, sep: string)
    requires Contains(s, sep)
    ensures exists i :: OccursAt(s, sep, i) && (forall j :: 0 <= j < i ==> !OccursAt(s, sep, j)) &&
                        var rest := s[i + |sep|..];
                        SecondPiece(s, sep) <= rest &&
                        (|SecondPiece(s, sep)| == |rest| || OccursAt(rest, sep, |SecondPiece(s, sep)|))
  {
    var i := IndexOf(s, sep).value;
    IndexFromSpec(s, sep, 0);
    var rest := s[i + |sep|..];
    IndexFromSpec(rest, sep, 0);
    var piece := SecondPiece(s, sep);
    assert piece <= rest && (|piece| == |rest| || OccursAt(rest, sep, |piece|));
  }

  /** The piece holds no separator. */
  lemma SecondPieceNoSep(s: string, sep: string)
    requires |sep| > 0 && Contains(s, sep)
    ensures !Contains(SecondPiece(s, sep), sep)
  {
    var i := IndexOf(s, sep).value;
    IndexFromSpec(s, sep, 0);
    var rest := s[i + |sep|..];
    IndexFromSpec(rest, sep, 0);
    var piece := SecondPiece(s, sep);
    match IndexOf(rest, sep) {
      case Some(j) =>
        assert piece == rest[..j];
        NoOccurrenceInPrefix(rest, sep, j);
      case None =>
        assert piece == rest;
    }
    assert forall k :: !OccursAt(piece, sep, k);
    IndexFromSpec(piece, sep, 0);
    assert IndexOf(piece, sep).None?;
  }

  /** A prefix that ends before the first occurrence holds none. */
  lemma NoOccurrenceInPrefix(t: string, sep: string, j: nat)
    requires |sep| > 0 && j <= |t|
    requires forall k :: 0 <= k < j ==> !OccursAt(t, sep, k)
    ensures forall k :: !OccursAt(t[..j], sep, k)
  {
    forall k | 0 <= k && k + |sep| <= j ensures !OccursAt(t[..j], sep, k) {
      assert !OccursAt(t, sep, k);
      assert t[..j][k..k + |sep|] == t[k..k + |sep|];
    }
  }

  // ----- Whitespace -----

  /** Python's `str.isspace`, which both `str.strip()` and the regex `\s` use. */
  predicate IsSpace(c: char)
  {
    c == ' ' || '\t' <= c <= '\r' || '\U{1c}' <= c <= '\U{1f}' || c == '\U{85}' || c == '\U{a0}' ||
    c == '\U{1680}' || '\U{2000}' <= c <= '\U{200a}' || c == '\U{2028}' || c == '\U{2029}' ||
    c == '\U{202f}' || c == '\U{205f}' || c == '\U{3000}'
  }

  /** Drops leading whitespace. */
  function TrimLeft(s: string): string
  {
    if s != [] && IsSpace(s[0]) then TrimLeft(s[1..]) else s
  }

  /** What is left is a suffix that does not start with whitespace, and only whitespace was dropped. */
  lemma {:induction false} TrimLeftSpec(s: string)
    ensures var r := TrimLeft(s);
            |r| <= |s| && r == s[|s| - |r|..] && (r == [] || !IsSpace(r[0])) &&
            forall k :: 0 <= k < |s| - |r| ==> IsSpace(s[k])
  {
    if s != [] && IsSpace(s[0]) {
      var t := s[1..];
      TrimLeftSpec(t);
      var r := TrimLeft(t);
      assert TrimLeft(s) == r;
      assert t[|t| - |r|..] == s[|s| - |r|..];
      forall k | 1 <= k < |s| - |r| ensures IsSpace(s[k]) {
        assert s[k] == t[k - 1];
      }
    }
  }

  /** Drops trailing whitespace. */
  function TrimRight(s: string): string
  {
    if s != [] && IsSpace(s[|s| - 1]) then TrimRight(s[..|s| - 1]) else s
  }

  /** What is left is a prefix that does not end with whitespace, and only whitespace was dropped. */
  lemma {:induction false} TrimRightSpec(s: string)
    ensures var r := TrimRight(s);
            |r| <= |s| && r == s[..|r|] && (r == [] || !IsSpace(r[|r| - 1])) &&
            forall k :: |r| <= k < |s| ==> IsSpace(s[k])
  {
    if s != [] && IsSpace(s[|s| - 1]) {
      var t := s[..|s| - 1];
      TrimRightSpec(t);
      var r := TrimRight(t);
      assert TrimRight(s) == r;
      assert t[..|r|] == s[..|r|];
      forall k | |r| <= k < |t| ensures IsSpace(s[k]) {
        assert s[k] == t[k];
      }
    }
  }

  /** Python's `s.strip()`. */
  function Strip(s: string): string
  {
    TrimRight(TrimLeft(s))
  }

  /** `strip` keeps one contiguous run of `s` whose ends are not whitespace and drops only whitespace around it. */
  lemma StripSpec(s: string)
    ensures exists i, j :: 0 <= i <= j <= |s| && Strip(s) == s[i..j] &&
                           (forall k :: 0 <= k < i || j <= k < |s| ==> IsSpace(s[k]))
    ensures Strip(s) == [] || (!IsSpace(Strip(s)[0]) && !IsSpace(Strip(s)[|Strip(s)| - 1]))
  {
    var l := TrimLeft(s);
    TrimLeftSpec(s);
    var i := |s| - |l|;
    var r := TrimRight(l);
    TrimRightSpec(l);
    assert r == s[i..i + |r|];
    forall k | i + |r| <= k < |s| ensures IsSpace(s[k]) {
      assert s[k] == l[k - i];
    }
  }

  /** Stripping twice is stripping once. */
  lemma StripIdempotent(s: string)
    ensures Strip(Strip(s)) == Strip(s)
  {
    StripSpec(s);
  }

  /** Stripping after the regex's `\s*` gives the same value as stripping the raw remainder. */
  lemma StripAfterTrimLeft(s: string)
    ensures Strip(TrimLeft(s)) == Strip(s)
  {
    var l := TrimLeft(s);
    TrimLeftSpec(s);
    assert TrimLeft(l) == l;
  }

  // ----- Lines -----

  /** Python's `s.split('\n')`: always at least one piece, none holding a newline. */
  function SplitLines(s: string): (r: seq<string>)
    ensures |r| >= 1
    ensures forall k :: 0 <= k < |r| ==> '\n' !in r[k]
  {
    if '\n' in s then
      var i := FirstNewline(s);
      [s[..i]] + SplitLines(s[i + 1..])
    else [s]
  }

  function FirstNewline(s: string): (i: nat)
    requires '\n' in s
    ensures i < |s| && s[i] == '\n' && '\n' !in s[..i]
  {
    if s[0] == '\n' then 0 else 1 + FirstNewline(s[1..])
  }

  /** `'\n'.join(lines)`. */
  function JoinLines(lines: seq<string>): string
    requires |lines| >= 1
  {
    if |lines| == 1 then lines[0] else lines[0] + "\n" + JoinLines(lines[1..])
  }

  /** Splitting then joining gives the reply back. */
  lemma {:induction false} JoinSplit(s: string)
    ensures JoinLines(SplitLines(s)) == s
    decreases |s|
  {
    if '\n' in s {
      var i := FirstNewline(s);
      var rest := SplitLines(s[i + 1..]);
      JoinSplit(s[i + 1..]);
      assert SplitLines(s) == [s[..i]] + rest;
      assert ([s[..i]] + rest)[1..] == rest;
      assert JoinLines(SplitLines(s)) == s[..i] + "\n" + s[i + 1..];
      assert s == s[..i] + "\n" + s[i + 1..];
    }
  }

  /** Joining newline-free lines then splitting gives the lines back. */
  lemma {:induction false} SplitJoin(lines: seq<string>)
    requires |lines| >= 1
    requires forall k :: 0 <= k < |lines| ==> '\n' !in lines[k]
    ensures SplitLines(JoinLines(lines)) == lines
  {
    if |lines| > 1 {
      var s := JoinLines(lines);
      var first := lines[0];
      assert s == first + "\n" + JoinLines(lines[1..]);
      assert s[|first|] == '\n' && s[..|first|] == first;
      assert FirstNewline(s) == |first| by {
        var i := FirstNewline(s);
        assert forall k :: 0 <= k < |first| ==> s[k] == first[k];
        assert forall k :: 0 <= k < i ==> s[..i][k] == s[k];
      }
      assert s[|first| + 1..] == JoinLines(lines[1..]);
      SplitJoin(lines[1..]);
    } else {
      assert '\n' !in lines[0];
    }
  }

  // ----- One line -----

  const ToolMarker: string := "TOOL_NAME:"
  const ParamPrefix: string := "PARAM_"

  /** The regex class `\w`, restricted to ASCII. */
  predicate IsWordChar(c: char)
  {
    'a' <= c <= 'z' || 'A' <= c <= 'Z' || '0' <= c <= '9' || c == '_'
  }

  /** The length of the run of word characters starting at `i`. */
  function WordRun(s: string, i: nat): (n: nat)
    requires i <= |s|
    ensures i + n <= |s|
    ensures forall k :: i <= k < i + n ==> IsWordChar(s[k])
    ensures i + n == |s| || !IsWordChar(s[i + n])
    decreases |s| - i
  {
    if i < |s| && IsWordChar(s[i]) then 1 + WordRun(s, i + 1) else 0
  }

  /** A parameter name and value. */
  datatype Param = Param(key: string, value: string)

  ghost predicate IsKey(key: string)
  {
    |key| > 0 && forall k :: 0 <= k < |key| ==> IsWordChar(key[k])
  }

  /**
   * `re.match(r'PARAM_(\w+):\s*(.*)', line)` then `value.strip()`: anchored
   * at the start of the line; `\w+` cannot give back characters, since the
   * `:` after it is not a word character.
   */
  function MatchParam(line: string): Option<Param>
  {
    var p := |ParamPrefix|;
    if |line| < p || line[..p] != ParamPrefix then None
    else
      var n := WordRun(line, p);
      if n == 0 || p + n == |line| || line[p + n] != ':' then None
      else
        var value := TrimLeft(line[p + n + 1..]);
        Some(Param(line[p..p + n], Strip(value)))
  }

  /** Every line of the form `PARAM_<key>:<rest>` matches, with that key and the stripped rest. */
  lemma MatchParamComplete(line: string, key: string, rest: string)
    requires IsKey(key) && line == ParamPrefix + key + ":" + rest
    ensures MatchParam(line) == Some(Param(key, Strip(rest)))
  {
    var p := |ParamPrefix|;
    assert line[..p] == ParamPrefix;
    var n := WordRun(line, p);
    assert forall k :: 0 <= k < |key| ==> line[p + k] == key[k];
    assert line[p + |key|] == ':';
    assert n == |key|;
    assert line[p..p + n] == key;
    assert line[p + n + 1..] == rest;
    StripAfterTrimLeft(rest);
  }

  /** A line that matches has the form `PARAM_<key>:<rest>` and the value is the stripped rest. */
  lemma MatchParamSound(line: string)
    requires MatchParam(line).Some?
    ensures IsKey(MatchParam(line).value.key)
    ensures exists rest :: line == ParamPrefix + MatchParam(line).value.key + ":" + rest &&
                           MatchParam(line).value.value == Strip(rest)
  {
    var p := |ParamPrefix|;
    var n := WordRun(line, p);
    var rest := line[p + n + 1..];
    StripAfterTrimLeft(rest);
    assert line == line[..p] + line[p..p + n] + [line[p + n]] + rest;
  }

  /** What a line does to the parse. */
  datatype LineEffect = SetTool(name: string) | SetParam(param: Param) | NoEffect

  function LineEffectOf(line: string): (r: LineEffect)
    ensures r.SetTool? <==> Contains(line, ToolMarker)
  {
    if Contains(line, ToolMarker) then SetTool(Strip(SecondPiece(line, ToolMarker)))
    else if Contains(line, ParamPrefix) then
      match MatchParam(line)
      case Some(p) => SetParam(p)
      case None => NoEffect
    else NoEffect
  }

  /** A line adds a parameter exactly when it has no `TOOL_NAME:` and begins with `PARAM_<key>:`. */
  lemma LineEffectParam(line: string)
    ensures LineEffectOf(line).SetParam? <==> !Contains(line, ToolMarker) && MatchParam(line).Some?
    ensures LineEffectOf(line).SetParam? ==> LineEffectOf(line).param == MatchParam(line).value
  {
    if MatchParam(line).Some? {
      assert OccursAt(line, ParamPrefix, 0);
      IndexFromSpec(line, ParamPrefix, 0);
    }
  }

  // ----- The whole reply -----

  /** The parser's result: the tool name (None when no line named one) and the parameters. */
  datatype Parsed = Parsed(toolName: Option<string>, params: map<string, string>)

  function Apply(p: Parsed, e: LineEffect): Parsed
  {
    match e
    case SetTool(name) => p.(toolName := Some(name))
    case SetParam(param) => p.(params := p.params[param.key := param.value])
    case NoEffect => p
  }

  /** The effects applied in order, starting from `(None, {})`. */
  function ParseEffects(effects: seq<LineEffect>): Parsed
  {
    if effects == [] then Parsed(None, map[])
    else Apply(ParseEffects(effects[..|effects| - 1]), effects[|effects| - 1])
  }

  /** What each line does, in order. */
  function EffectsOf(lines: seq<string>): (r: seq<LineEffect>)
    ensures |r| == |lines|
    ensures forall k :: 0 <= k < |lines| ==> r[k] == LineEffectOf(lines[k])
  {
    if lines == [] then []
    else EffectsOf(lines[..|lines| - 1]) + [LineEffectOf(lines[|lines| - 1])]
  }

  /** The parse of a sequence of lines. */
  function ParseLines(lines: seq<string>): Parsed
  {
    ParseEffects(EffectsOf(lines))
  }

  lemma ParseLinesSnoc(lines: seq<string>, i: nat)
    requires i < |lines|
    ensures ParseLines(lines[..i + 1]) == Apply(ParseLines(lines[..i]), LineEffectOf(lines[i]))
  {
    var e := EffectsOf(lines[..i + 1]);
    assert e[..i] == EffectsOf(lines[..i]);
  }

  /** `_parse_tool_call`: one pass over the lines of the reply. */
  method ParseToolCall(response: string) returns (toolName: Option<string>, params: map<string, string>)
    ensures Parsed(toolName, params) == ParseLines(SplitLines(response))
  {
    var lines := SplitLines(response);
    toolName, params := None, map[];
    for i := 0 to |lines|
      invariant Parsed(toolName, params) == ParseLines(lines[..i])
    {
      ParseLinesSnoc(lines, i);
      toolName, params := ParseLine(lines[i], toolName, params);
    }
    assert lines[..|lines|] == lines;
  }

  /** The body of the loop: a `TOOL_NAME:` line sets the name, else a matching `PARAM_` line sets a parameter. */
  method ParseLine(line: string, toolName: Option<string>, params: map<string, string>)
    returns (toolName': Option<string>, params': map<string, string>)
    ensures Parsed(toolName', params') == Apply(Parsed(toolName, params), LineEffectOf(line))
  {
    toolName', params' := toolName, params;
    if Contains(line, ToolMarker) {
      toolName' := Some(Strip(SecondPiece(line, ToolMarker)));
    } else if Contains(line, ParamPrefix) {
      var m := MatchParam(line);
      if m.Some? {
        params' := params[m.value.key := m.value.value];
      }
    }
  }

  /** With no tool effect, the tool name stays None. */
  lemma {:induction false} NoToolEffect(effects: seq<LineEffect>)
    requires forall k :: 0 <= k < |effects| ==> !effects[k].SetTool?
    ensures ParseEffects(effects).toolName == None
  {
    if effects != [] {
      NoToolEffect(effects[..|effects| - 1]);
    }
  }

  /** The last tool effect decides the tool name. */
  lemma {:induction false} LastToolEffectWins(effects: seq<LineEffect>, i: nat)
    requires i < |effects| && effects[i].SetTool?
    requires forall k :: i < k < |effects| ==> !effects[k].SetTool?
    ensures ParseEffects(effects).toolName == Some(effects[i].name)
  {
    var n := |effects| - 1;
    if i < n {
      LastToolEffectWins(effects[..n], i);
    }
  }

  /** No line names a tool: the tool name is None. */
  lemma NoToolLine(lines: seq<string>)
    requires forall k :: 0 <= k < |lines| ==> !Contains(lines[k], ToolMarker)
    ensures ParseLines(lines).toolName == None
  {
    NoToolEffect(EffectsOf(lines));
  }

  /** The last line naming a tool decides the tool name: the text after its first `TOOL_NAME:`, stripped. */
  lemma LastToolLineWins(lines: seq<string>, i: nat)
    requires i < |lines| && Contains(lines[i], ToolMarker)
    requires forall k :: i < k < |lines| ==> !Contains(lines[k], ToolMarker)
    ensures ParseLines(lines).toolName == Some(Strip(SecondPiece(lines[i], ToolMarker)))
  {
    LastToolEffectWins(EffectsOf(lines), i);
  }

  /** Effect `i` sets parameter `key`. */
  ghost predicate SetsKey(effects: seq<LineEffect>, i: int, key: string)
    requires 0 <= i < |effects|
  {
    effects[i].SetParam? && effects[i].param.key == key
  }

  /** A key is present exactly when some effect sets it. */
  lemma {:induction false} EffectKeys(effects: seq<LineEffect>, key: string)
    ensures key in ParseEffects(effects).params <==> exists i :: 0 <= i < |effects| && SetsKey(effects, i, key)
  {
    if effects != [] {
      var n := |effects| - 1;
      EffectKeys(effects[..n], key);
      if exists i :: 0 <= i < |effects| && SetsKey(effects, i, key) {
        var i :| 0 <= i < |effects| && SetsKey(effects, i, key);
        if i < n {
          assert SetsKey(effects[..n], i, key);
        }
      }
      if key in ParseEffects(effects).params {
        if key in ParseEffects(effects[..n]).params {
          var i :| 0 <= i < n && SetsKey(effects[..n], i, key);
          assert SetsKey(effects, i, key);
        } else {
          assert SetsKey(effects, n, key);
        }
      }
    }
  }

  /** A repeated key keeps the value of the last effect that sets it. */
  lemma {:induction false} LastEffectWins(effects: seq<LineEffect>, i: nat, key: string)
    requires i < |effects| && SetsKey(effects, i, key)
    requires forall k :: i < k < |effects| ==> !SetsKey(effects, k, key)
    ensures key in ParseEffects(effects).params
    ensures ParseEffects(effects).params[key] == effects[i].param.value
  {
    var n := |effects| - 1;
    if i < n {
      assert !SetsKey(effects, n, key);
      assert SetsKey(effects[..n], i, key);
      forall k | i < k < n ensures !SetsKey(effects[..n], k, key) {
        assert !SetsKey(effects, k, key);
      }
      LastEffectWins(effects[..n], i, key);
    }
  }

  /** Line `i` adds parameter `key`: it has no `TOOL_NAME:` and begins `PARAM_<key>:`. */
  ghost predicate LineSetsKey(lines: seq<string>, i: int, key: string)
    requires 0 <= i < |lines|
  {
    !Contains(lines[i], ToolMarker) && MatchParam(lines[i]).Some? && MatchParam(lines[i]).value.key == key
  }

  /** A key is present exactly when some line without `TOOL_NAME:` begins with `PARAM_<key>:`. */
  lemma ParamKeys(lines: seq<string>, key: string)
    ensures key in ParseLines(lines).params <==> exists i :: 0 <= i < |lines| && LineSetsKey(lines, i, key)
  {
    var effects := EffectsOf(lines);
    EffectKeys(effects, key);
    forall i | 0 <= i < |lines| ensures SetsKey(effects, i, key) <==> LineSetsKey(lines, i, key) {
      LineEffectParam(lines[i]);
    }
  }

  /** A repeated key keeps the stripped value of the last line that sets it. */
  lemma LastParamWins(lines: seq<string>, i: nat, key: string)
    requires i < |lines| && LineSetsKey(lines, i, key)
    requires forall k :: i < k < |lines| ==> !LineSetsKey(lines, k, key)
    ensures key in ParseLines(lines).params
    ensures ParseLines(lines).params[key] == MatchParam(lines[i]).value.value
  {
    var effects := EffectsOf(lines);
    forall k | i <= k < |lines| ensures SetsKey(effects, k, key) <==> LineSetsKey(lines, k, key) {
      LineEffectParam(lines[k]);
    }
    LineEffectParam(lines[i]);
    LastEffectWins(effects, i, key);
  }

  /** The effects leave `(None, {})` exactly when none of them does anything. */
  lemma {:induction false} EmptyEffects(effects: seq<LineEffect>)
    ensures ParseEffects(effects) == Parsed(None, map[]) <==>
            forall k :: 0 <= k < |effects| ==> effects[k].NoEffect?
  {
    if effects != [] {
      var n := |effects| - 1;
      EmptyEffects(effects[..n]);
      var e := effects[n];
      if e.SetParam? {
        assert e.param.key in ParseEffects(effects).params;
      }
      assert forall k :: 0 <= k < n ==> effects[..n][k] == effects[k];
    }
  }

  /** The result is `(None, {})` exactly when no line names a tool and no line sets a parameter. */
  lemma EmptyParse(lines: seq<string>)
    ensures ParseLines(lines) == Parsed(None, map[]) <==>
            forall k :: 0 <= k < |lines| ==> !Contains(lines[k], ToolMarker) && MatchParam(lines[k]).None?
  {
    var effects := EffectsOf(lines);
    EmptyEffects(effects);
    forall k | 0 <= k < |lines|
      ensures effects[k].NoEffect? <==> !Contains(lines[k], ToolMarker) && MatchParam(lines[k]).None?
    {
      LineEffectParam(lines[k]);
    }
  }
}
