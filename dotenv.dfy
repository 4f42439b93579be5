/** The hand-written `.env` loader that deploy-commands.js, src/bot.js and
    start.js each carry a copy of. The three copies are the same code: the
    file text is split on LF, each line is trimmed, blank and `#` lines are
    skipped, the line is cut at its first `=`, and `process.env[key] = value`
    runs only when the trimmed key and the trimmed value are both non-empty. */
module DotEnv {
  import opened Wrappers
  import opened Text

  type Env = map<string, string>

  /** What one line of the file assigns, if anything. */
  function ParseLine(line: string): Option<(string, string)> {
    ParseTrimmed(Trim(line))
  }

  /** The decision on a line once it has been trimmed. */
  function ParseTrimmed(trimmed: string): Option<(string, string)> {
    if trimmed == [] || trimmed[0] == '#' then None
    else
      var eq := IndexOf(trimmed, '=');
      if eq == -1 then None
      else
        var key := Trim(trimmed[..eq]);
        var value := Trim(trimmed[eq + 1..]);
        if key != [] && value != [] then Some((key, value)) else None
  }

  /** Blank lines and lines without `=` assign nothing; whatever a line does
      assign has a non-empty key and value, both trimmed, and a key free of
      `=` that does not start a comment. */
  lemma ParseLineShape(line: string)
    ensures AllSpace(line) ==> ParseLine(line).None?
    ensures '=' !in line ==> ParseLine(line).None?
    ensures ParseLine(line).Some? ==> var (key, value) := ParseLine(line).value;
      && key != [] && value != []
      && IsTrimmed(key) && IsTrimmed(value)
      && '=' !in key && key[0] != '#'
  {
    var trimmed := Trim(line);
    TrimEmptyIff(line);
    if '=' !in line {
      TrimKeepsOnly(line, '=');
    }
    if ParseLine(line).Some? {
      TrimSpec(line);
      var eq := IndexOf(trimmed, '=');
      var before := trimmed[..eq];
      TrimSpec(before);
      TrimSpec(trimmed[eq + 1..]);
      TrimKeepsOnly(before, '=');
      assert before != [] && before[0] == trimmed[0];
      TrimFirst(before);
    }
  }

  /** One line's effect on the environment. */
  function Assign(env: Env, line: string): Env {
    var parsed := ParseLine(line);
    if parsed.Some? then env[parsed.value.0 := parsed.value.1] else env
  }

  /** The environment after the lines, taken in order. */
  function ApplyLines(env: Env, lines: seq<string>): Env
    decreases |lines|
  {
    if lines == [] then env
    else Assign(ApplyLines(env, lines[..|lines| - 1]), lines[|lines| - 1])
  }

  /** The value the last line that names `key` assigns to it. */
  function LastAssigned(lines: seq<string>, key: string): Option<string>
    decreases |lines|
  {
    if lines == [] then None
    else match ParseLine(lines[|lines| - 1])
      case Some((k, v)) =>
        if k == key then Some(v) else LastAssigned(lines[..|lines| - 1], key)
      case None => LastAssigned(lines[..|lines| - 1], key)
  }

  /** The load as the bot runs it: nothing happens when the file is absent. */
  method LoadDotEnv(env: Env, file: Option<string>) returns (loaded: Env)
    ensures file.None? ==> loaded == env
    ensures file.Some? ==> loaded == ApplyLines(env, Split(file.value, '\n'))
  {
    loaded := env;
    if file.Some? {
      var lines := Split(file.value, '\n');
      for i := 0 to |lines|
        invariant loaded == ApplyLines(env, lines[..i])
      {
        var line := lines[i];
        assert ApplyLines(env, lines[..i + 1]) == Assign(loaded, line) by {
          assert lines[..i + 1][..i] == lines[..i] && lines[..i + 1][i] == line;
        }
        var parsed := ParseLine(line);
        if parsed.Some? {
          loaded := loaded[parsed.value.0 := parsed.value.1];
        }
      }
      assert lines[..|lines|] == lines;
    }
  }

  /** After loading, a key has the value of the last line that assigns it,
      and a key no line assigns keeps its earlier value (or stays absent). */
  lemma {:induction false} ApplyLinesLookup(env: Env, lines: seq<string>, key: string)
    ensures key in ApplyLines(env, lines) <==> key in env || LastAssigned(lines, key).Some?
    ensures LastAssigned(lines, key).Some? ==>
      ApplyLines(env, lines)[key] == LastAssigned(lines, key).value
    ensures LastAssigned(lines, key).None? && key in env ==>
      ApplyLines(env, lines)[key] == env[key]
    decreases |lines|
  {
    if lines != [] {
      ApplyLinesLookup(env, lines[..|lines| - 1], key);
    }
  }

  /** Loading a file in two pieces is loading it once: lines are applied
      strictly in order. */
  lemma {:induction false} ApplyLinesAppend(env: Env, first: seq<string>, second: seq<string>)
    ensures ApplyLines(env, first + second) == ApplyLines(ApplyLines(env, first), second)
    decreases |second|
  {
    if second == [] {
      assert first + second == first;
    } else {
      var last := |second| - 1;
      assert (first + second)[..|first + second| - 1] == first + second[..last];
      ApplyLinesAppend(env, first, second[..last]);
    }
  }

  /** Loading never removes a variable. */
  lemma {:induction false} ApplyLinesKeepsKeys(env: Env, lines: seq<string>)
    ensures env.Keys <= ApplyLines(env, lines).Keys
    decreases |lines|
  {
    if lines != [] {
      ApplyLinesKeepsKeys(env, lines[..|lines| - 1]);
    }
  }

  /** The trimmed text `KEY<pad>=<pad>VALUE` assigns VALUE to KEY. */
  lemma ParseTrimmedAssignment(key: string, value: string, p2: string, p3: string)
    requires key != [] && value != [] && IsTrimmed(key) && IsTrimmed(value)
    requires '=' !in key && key[0] != '#'
    requires AllSpace(p2) && AllSpace(p3)
    ensures ParseTrimmed(key + p2 + "=" + p3 + value) == Some((key, value))
  {
    var core := key + p2 + "=" + p3 + value;
    var eq := |key| + |p2|;
    assert core[..eq] == key + p2;
    assert core[eq + 1..] == p3 + value;
    TrimKeepsOnly(p2, '=') by { TrimEmptyIff(p2); }
    assert '=' !in p2 by {
      assert forall k | 0 <= k < |p2| :: IsSpace(p2[k]);
    }
    IndexOfFirst(core, '=', eq);
    TrimPadded([], key, p2);
    assert [] + key + p2 == key + p2;
    TrimPadded(p3, value, []);
    assert p3 + value + [] == p3 + value;
  }

  /** A line `KEY=VALUE`, padded with any white space (a CR of a CRLF line
      ending included) around the key and the value, assigns the value
      verbatim: quotes are kept and the value may itself contain `=`. */
  lemma ParseAssignment(key: string, value: string, p1: string, p2: string, p3: string, p4: string)
    requires key != [] && value != [] && IsTrimmed(key) && IsTrimmed(value)
    requires '=' !in key && key[0] != '#'
    requires AllSpace(p1) && AllSpace(p2) && AllSpace(p3) && AllSpace(p4)
    ensures ParseLine(p1 + key + p2 + "=" + p3 + value + p4) == Some((key, value))
  {
    var core := key + p2 + "=" + p3 + value;
    assert core[0] == key[0] && core[|core| - 1] == value[|value| - 1];
    assert p1 + key + p2 + "=" + p3 + value + p4 == p1 + core + p4;
    TrimPadded(p1, core, p4);
    ParseTrimmedAssignment(key, value, p2, p3);
  }

  /** The converse of `ParseAssignment`: a line that assigns is its key and
      its value, padded with white space around both and joined by the
      line's first `=`. */
  lemma ParseLineInverse(line: string)
    requires ParseLine(line).Some?
    ensures var (key, value) := ParseLine(line).value;
      && '=' !in key
      && exists p1, p2, p3, p4 ::
           && AllSpace(p1) && AllSpace(p2) && AllSpace(p3) && AllSpace(p4)
           && line == p1 + key + p2 + "=" + p3 + value + p4
  {
    ParseLineShape(line);
    var (key, value) := ParseLine(line).value;
    var trimmed := Trim(line);
    var lead, trail := TrimParts(line);
    var eq := IndexOf(trimmed, '=');
    var before, after := trimmed[..eq], trimmed[eq + 1..];
    assert trimmed == before + "=" + after;
    var pb, sb := TrimParts(before);
    var pa, sa := TrimParts(after);
    Reassociate(line, lead, trimmed, trail, pb, key, sb, pa, value, sa);
    AllSpaceAppend(lead, pb);
    AllSpaceAppend(sa, trail);
  }

  /** The trimmed line and its two halves put back together. */
  lemma Reassociate(line: string, lead: string, trimmed: string, trail: string,
                    pb: string, key: string, sb: string, pa: string, value: string, sa: string)
    requires line == lead + trimmed + trail
    requires trimmed == (pb + key + sb) + "=" + (pa + value + sa)
    ensures line == (lead + pb) + key + sb + "=" + pa + value + (sa + trail)
  {
  }

  /** A line whose key is blank (`=VALUE`, `  = VALUE`) assigns nothing. */
  lemma EmptyKeyAssignsNothing(blank: string, rest: string)
    requires AllSpace(blank)
    ensures ParseLine(blank + "=" + rest) == None
  {
    var line := blank + "=" + rest;
    var r := "=" + rest;
    assert line == blank + r;
    TrimStartPadded(blank, r);
    TrimFirst(r);
    assert Trim(line) == Trim(r);
    var trimmed := Trim(line);
    assert IndexOf(trimmed, '=') == 0;
    assert trimmed[..0] == [];
  }

  /** `KEY=` (or a value of white space only) assigns nothing, so an earlier
      value of KEY survives. */
  lemma EmptyValueAssignsNothing(key: string, blank: string)
    requires '=' !in key && AllSpace(blank)
    ensures ParseLine(key + "=" + blank) == None
  {
    var line := key + "=" + blank;
    var trimmed := Trim(line);
    var eq := IndexOf(trimmed, '=');
    if trimmed != [] && trimmed[0] != '#' && eq != -1 {
      TrimSpec(line);
      var lead := |line| - |TrimStart(line)|;
      assert trimmed == line[lead..lead + |trimmed|];
      assert trimmed[eq] == line[lead + eq];
      assert lead + eq == |key|;
      var after := trimmed[eq + 1..];
      assert after == line[|key| + 1..lead + |trimmed|];
      assert AllSpace(after);
      TrimEmptyIff(after);
    }
  }

  /** A line ending in CR (a CRLF file) is read as the same line without it. */
  lemma CrlfLineSameAsLf(line: string)
    ensures ParseLine(line + "\r") == ParseLine(line)
  {
    TrimDropsCarriageReturn(line);
  }

  /** A comment line assigns nothing, even when it contains `=`. */
  lemma CommentAssignsNothing(pad: string, text: string)
    requires AllSpace(pad)
    ensures ParseLine(pad + "#" + text) == None
  {
    var line := pad + "#" + text;
    var rest := "#" + text;
    assert line == pad + rest;
    TrimStartPadded(pad, rest);
    TrimFirst(rest);
    assert Trim(line) == Trim(rest);
  }
}
