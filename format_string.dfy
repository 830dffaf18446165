/** Report templates (`src/format_string.rs`): text with bash-style
    variables `$name` and `${name}`, where `$$` stands for a single `$`.
    A template is read once from the configuration and then evaluated
    against a map of variables. */
module FormatStrings {
  import opened Wrappers
  import opened Text

  datatype Part = Literal(text: string) | Variable(name: string)

  datatype FormatString = FormatString(parts: seq<Part>)

  datatype EvalError = VarNotFound(requested: string)

  datatype DeserializeError = FailedAt(remainder: string)

  // ---------------------------------------------------------------------
  // Evaluation

  /** Every variable among the parts has a value. */
  predicate Defined(parts: seq<Part>, variables: map<string, string>)
  {
    forall k :: 0 <= k < |parts| && parts[k].Variable? ==> parts[k].name in variables
  }

  /** The text of one part: a literal as it is, a variable by its value. */
  function PartText(part: Part, variables: map<string, string>): string
    requires part.Variable? ==> part.name in variables
  {
    match part
    case Literal(text) => text
    case Variable(name) => variables[name]
  }

  /** The parts' texts, one after the other. */
  function Render(parts: seq<Part>, variables: map<string, string>): string
    requires Defined(parts, variables)
  {
    if parts == [] then ""
    else Render(parts[..|parts| - 1], variables) + PartText(parts[|parts| - 1], variables)
  }

  /** Every variable before position `n` has a value. */
  predicate DefinedBefore(parts: seq<Part>, n: int, variables: map<string, string>)
  {
    forall j :: 0 <= j < n && j < |parts| && parts[j].Variable? ==> parts[j].name in variables
  }

  /** The position of the first variable without a value, searching from
      `from` on. */
  function FirstMissingFrom(parts: seq<Part>, from: nat, variables: map<string, string>): (k: nat)
    requires from <= |parts| && DefinedBefore(parts, from, variables) && !Defined(parts, variables)
    ensures from <= k < |parts| && parts[k].Variable? && parts[k].name !in variables
    ensures DefinedBefore(parts, k, variables)
    decreases |parts| - from
  {
    if from == |parts| then
      assert false; from
    else if parts[from].Variable? && parts[from].name !in variables then from
    else FirstMissingFrom(parts, from + 1, variables)
  }

  /** The position of the first variable without a value. */
  function FirstMissing(parts: seq<Part>, variables: map<string, string>): (k: nat)
    requires !Defined(parts, variables)
    ensures k < |parts| && parts[k].Variable? && parts[k].name !in variables
    ensures DefinedBefore(parts, k, variables)
  {
    FirstMissingFrom(parts, 0, variables)
  }

  /** A variable without a value, after only variables with one, is the
      first missing one. */
  lemma FirstMissingAt(parts: seq<Part>, variables: map<string, string>, i: nat)
    requires i < |parts| && parts[i].Variable? && parts[i].name !in variables
    requires DefinedBefore(parts, i, variables)
    ensures !Defined(parts, variables) && FirstMissing(parts, variables) == i
  {
  }

  /** What `evaluate` returns: the rendered text when every variable has a
      value, and otherwise the first variable that has none. */
  function Evaluation(parts: seq<Part>, variables: map<string, string>): (r: Result<string, EvalError>)
    ensures r.Ok? <==> Defined(parts, variables)
    ensures r.Err? ==> exists k :: (0 <= k < |parts| && parts[k] == Variable(r.error.requested)
      && r.error.requested !in variables && DefinedBefore(parts, k, variables))
  {
    if Defined(parts, variables) then Ok(Render(parts, variables))
    else
      var k := FirstMissing(parts, variables);
      Err(VarNotFound(parts[k].name))
  }

  /** `FormatString::evaluate`: append each part's text to a buffer,
      stopping at the first variable that has no value. */
  method Evaluate(fs: FormatString, variables: map<string, string>) returns (r: Result<string, EvalError>)
    ensures r == Evaluation(fs.parts, variables)
  {
    var buffer := "";
    for i := 0 to |fs.parts|
      invariant DefinedBefore(fs.parts, i, variables)
      invariant Defined(fs.parts[..i], variables)
      invariant buffer == Render(fs.parts[..i], variables)
    {
      assert fs.parts[..i + 1][..i] == fs.parts[..i];
      assert forall j :: 0 <= j < i ==> fs.parts[..i + 1][j] == fs.parts[j];
      match fs.parts[i]
      case Literal(text) =>
        buffer := buffer + text;
      case Variable(name) =>
        if name in variables {
          buffer := buffer + variables[name];
        } else {
          FirstMissingAt(fs.parts, variables, i);
          return Err(VarNotFound(name));
        }
    }
    assert fs.parts[..|fs.parts|] == fs.parts;
    return Ok(buffer);
  }

  lemma {:induction false} RenderAppend(a: seq<Part>, b: seq<Part>, variables: map<string, string>)
    requires Defined(a, variables) && Defined(b, variables)
    ensures Defined(a + b, variables)
    ensures Render(a + b, variables) == Render(a, variables) + Render(b, variables)
  {
    if b != [] {
      var b' := b[..|b| - 1];
      assert (a + b)[..|a + b| - 1] == a + b';
      RenderAppend(a, b', variables);
    } else {
      assert a + b == a;
    }
  }

  /** Evaluating two templates one after the other is evaluating them
      joined: the texts are concatenated, and the first failure wins. */
  lemma EvaluationAppend(a: seq<Part>, b: seq<Part>, variables: map<string, string>)
    ensures Evaluation(a + b, variables) ==
      match (Evaluation(a, variables), Evaluation(b, variables))
      case (Err(e), _) => Err(e)
      case (Ok(_), Err(e)) => Err(e)
      case (Ok(x), Ok(y)) => Ok(x + y)
  {
    if Defined(a, variables) && Defined(b, variables) {
      RenderAppend(a, b, variables);
    } else if !Defined(a, variables) {
      var k := FirstMissing(a, variables);
      assert (a + b)[k] == a[k];
      FirstMissingAt(a + b, variables, k);
    } else {
      var k := FirstMissing(b, variables);
      assert (a + b)[|a| + k] == b[k];
      assert forall j :: |a| <= j < |a| + k ==> (a + b)[j] == b[j - |a|];
      FirstMissingAt(a + b, variables, |a| + k);
    }
  }

  /** A template without variables evaluates to its literals whatever
      the variables are. */
  lemma EvaluationLiteralsOnly(parts: seq<Part>, variables: map<string, string>)
    requires forall k :: 0 <= k < |parts| ==> parts[k].Literal?
    ensures Evaluation(parts, variables) == Evaluation(parts, map[])
    ensures Evaluation(parts, variables).Ok?
  {
    RenderLiteralsOnly(parts, variables);
  }

  lemma {:induction false} RenderLiteralsOnly(parts: seq<Part>, variables: map<string, string>)
    requires forall k :: 0 <= k < |parts| ==> parts[k].Literal?
    ensures Defined(parts, variables) && Defined(parts, map[])
    ensures Render(parts, variables) == Render(parts, map[])
  {
    if parts != [] {
      RenderLiteralsOnly(parts[..|parts| - 1], variables);
    }
  }

  // ---------------------------------------------------------------------
  // Parsing

  predicate IsNameChar(c: char)
  {
    IsAsciiAlpha(c) || c == '_'
  }

  predicate IsName(s: string)
  {
    s != [] && forall i :: 0 <= i < |s| ==> IsNameChar(s[i])
  }

  /** The longest prefix of name characters. */
  function NameRun(s: string): (n: string)
    ensures |n| <= |s| && n == s[..|n|]
    ensures forall i :: 0 <= i < |n| ==> IsNameChar(n[i])
    ensures |n| < |s| ==> !IsNameChar(s[|n|])
  {
    if s != [] && IsNameChar(s[0]) then [s[0]] + NameRun(s[1..]) else []
  }

  lemma {:induction false} NameRunOf(n: string, rest: string)
    requires forall i :: 0 <= i < |n| ==> IsNameChar(n[i])
    requires rest == [] || !IsNameChar(rest[0])
    ensures NameRun(n + rest) == n
  {
    if n != [] {
      assert (n + rest)[1..] == n[1..] + rest;
      NameRunOf(n[1..], rest);
    } else {
      assert n + rest == rest;
    }
  }

  /** `parse_varname`: a non-empty run of ASCII letters and `_` (the
      optional second run can never start, the first being maximal). */
  function ParseVarname(s: string): (r: Option<(string, string)>)
    ensures r.Some? ==> IsName(r.value.0) && s == r.value.0 + r.value.1
    ensures r.Some? ==> r.value.1 == [] || !IsNameChar(r.value.1[0])
    ensures r.None? <==> s == [] || !IsNameChar(s[0])
  {
    var n := NameRun(s);
    if n == [] then None
    else
      assert s == n + s[|n|..];
      Some((n, s[|n|..]))
  }

  /** A proper name followed by text that cannot continue it is read as
      that name. */
  lemma ParseVarnameOf(name: string, rest: string)
    requires IsName(name)
    requires rest == [] || !IsNameChar(rest[0])
    ensures ParseVarname(name + rest) == Some((name, rest))
  {
    NameRunOf(name, rest);
    assert (name + rest)[|name|..] == rest;
  }

  /** `delimited(tag("${"), parse_varname, tag("}"))`. */
  function ParseBraced(s: string): (r: Option<(string, string)>)
    ensures r.Some? ==> IsName(r.value.0) && s == "${" + r.value.0 + "}" + r.value.1
  {
    if |s| >= 2 && s[0] == '$' && s[1] == '{' then
      match ParseVarname(s[2..])
      case Some((name, rest)) =>
        if rest != [] && rest[0] == '}' then
          assert s == s[..2] + s[2..];
          assert rest == "}" + rest[1..];
          Some((name, rest[1..]))
        else None
      case None => None
    else None
  }

  /** `preceded(tag("$"), parse_varname)`. */
  function ParseBare(s: string): (r: Option<(string, string)>)
    ensures r.Some? ==> IsName(r.value.0) && s == "$" + r.value.0 + r.value.1
    ensures r.Some? ==> r.value.1 == [] || !IsNameChar(r.value.1[0])
    ensures r.None? <==> |s| < 2 || s[0] != '$' || !IsNameChar(s[1])
  {
    if |s| >= 1 && s[0] == '$' then
      match ParseVarname(s[1..])
      case Some((name, rest)) =>
        assert s == s[..1] + s[1..];
        Some((name, rest))
      case None => None
    else None
  }

  lemma SuffixOfConcat(p: string, t: string)
    ensures (p + t)[|p + t| - |t|..] == t
  {
  }

  /** `parse_part_variable`: `${name}` first, then `$name`. */
  function ParsePartVariable(s: string): (r: Option<(Part, string)>)
    ensures r.Some? ==> r.value.0.Variable? && IsName(r.value.0.name)
    ensures r.Some? ==> |r.value.1| < |s| && r.value.1 == s[|s| - |r.value.1|..]
    ensures r.Some? ==> s[0] == '$'
    ensures |s| >= 2 && s[0] == '$' && s[1] == '$' ==> r.None?
  {
    match ParseBraced(s)
    case Some((name, rest)) =>
      SuffixOfConcat("${" + name + "}", rest);
      Some((Variable(name), rest))
    case None =>
      match ParseBare(s)
      case Some((name, rest)) =>
        SuffixOfConcat("$" + name, rest);
        Some((Variable(name), rest))
      case None => None
  }

  /** `many0(alt((is_not("$"), "$$" -> "$")))`, pieces joined: the literal
      text and what follows it. Runs of non-`$` characters are taken a
      character at a time, which joins to the same text. */
  function LiteralRun(s: string): (string, string)
    decreases |s|
  {
    if s != [] && s[0] != '$' then
      var (text, rest) := LiteralRun(s[1..]);
      ([s[0]] + text, rest)
    else if |s| >= 2 && s[0] == '$' && s[1] == '$' then
      var (text, rest) := LiteralRun(s[2..]);
      ("$" + text, rest)
    else ("", s)
  }

  /** `parse_part_literal`: at least one piece. */
  function ParsePartLiteral(s: string): (r: Option<(Part, string)>)
    ensures r.Some? ==> r.value.0.Literal? && r.value.0.text != []
    ensures r.Some? ==> |r.value.1| < |s| && r.value.1 == s[|s| - |r.value.1|..]
    ensures r.None? <==> s == [] || (s[0] == '$' && (|s| == 1 || s[1] != '$'))
    ensures r.Some? ==> r.value.1 == [] || (r.value.1[0] == '$' && (|r.value.1| == 1 || r.value.1[1] != '$'))
  {
    LiteralRunShape(s);
    var (text, rest) := LiteralRun(s);
    if |rest| == |s| then None
    else Some((Literal(text), rest))
  }

  /** The literal run ends at the end of the text or at a `$` that does not
      start `$$`, and whatever it consumes yields some text. */
  lemma {:induction false} LiteralRunShape(s: string)
    ensures |LiteralRun(s).1| <= |s| && LiteralRun(s).1 == s[|s| - |LiteralRun(s).1|..]
    ensures LiteralRun(s).1 == [] || (LiteralRun(s).1[0] == '$' && (|LiteralRun(s).1| == 1 || LiteralRun(s).1[1] != '$'))
    ensures |LiteralRun(s).1| < |s| ==> LiteralRun(s).0 != []
    ensures |LiteralRun(s).1| == |s| <==> s == [] || (s[0] == '$' && (|s| == 1 || s[1] != '$'))
    decreases |s|
  {
    if s != [] && s[0] != '$' {
      LiteralRunShape(s[1..]);
      SuffixOfSuffix(s, s[1..], LiteralRun(s).1);
    } else if |s| >= 2 && s[0] == '$' && s[1] == '$' {
      LiteralRunShape(s[2..]);
      SuffixOfSuffix(s, s[2..], LiteralRun(s).1);
    }
  }

  /** `parse_format_string_part`: a variable if one parses, else a
      literal. */
  function ParsePart(s: string): (r: Option<(Part, string)>)
    ensures r.Some? ==> |r.value.1| < |s| && r.value.1 == s[|s| - |r.value.1|..]
    ensures ParsePartVariable(s).Some? ==> r == ParsePartVariable(s)
    ensures r.None? <==> ParsePartVariable(s).None? && ParsePartLiteral(s).None?
  {
    match ParsePartVariable(s)
    case Some(v) => Some(v)
    case None => ParsePartLiteral(s)
  }

  /** `many0(parse_format_string_part)`: as many parts as parse, and the
      text no part could start on. */
  function ParseParts(s: string): (r: (seq<Part>, string))
    ensures |r.1| <= |s| && r.1 == s[|s| - |r.1|..]
    decreases |s|
  {
    var next := ParsePart(s);
    if next.None? then ([], s)
    else
      var more := ParseParts(next.value.1);
      SuffixOfSuffix(s, next.value.1, more.1);
      ([next.value.0] + more.0, more.1)
  }

  /** The parts stop where no part can start. */
  lemma {:induction false} ParsePartsStop(s: string)
    ensures ParsePart(ParseParts(s).1).None?
    decreases |s|
  {
    var next := ParsePart(s);
    if next.Some? {
      ParsePartsStop(next.value.1);
    }
  }

  lemma SuffixOfSuffix(s: string, t: string, u: string)
    requires |t| <= |s| && t == s[|s| - |t|..]
    requires |u| <= |t| && u == t[|t| - |u|..]
    ensures u == s[|s| - |u|..]
  {
  }

  /** Deserialising a template: every character must belong to a part. */
  function Deserialize(s: string): (r: Result<FormatString, DeserializeError>)
    ensures r.Err? ==> r.error.remainder != [] && r.error.remainder[0] == '$'
    ensures r.Ok? <==> ParseParts(s).1 == []
  {
    ParsePartsStop(s);
    var (parts, remainder) := ParseParts(s);
    if remainder == [] then Ok(FormatString(parts)) else Err(FailedAt(remainder))
  }

  /** A `$` followed by anything but a name, `{name}` or another `$` cannot
      be read: `"$1"` is rejected at the `$`. */
  lemma DollarDigitRejected()
    ensures Deserialize("$1") == Err(FailedAt("$1"))
  {
    assert ParseVarname("1") == None;
    assert ParsePartVariable("$1") == None;
    assert ParsePartLiteral("$1") == None;
  }

  /** A bare `$name` is read as a variable up to the first character that
      cannot be part of a name. */
  lemma BareVariable(name: string, rest: string)
    requires IsName(name)
    requires rest == [] || !IsNameChar(rest[0])
    ensures ParsePart("$" + name + rest) == Some((Variable(name), rest))
  {
    var s := "$" + name + rest;
    assert s[1..] == name + rest;
    ParseVarnameOf(name, rest);
    assert s[1] == name[0];
  }

  // ---------------------------------------------------------------------
  // Writing templates back

  /** `$` doubled. */
  function Escape(text: string): string
  {
    if text == [] then ""
    else (if text[0] == '$' then "$$" else [text[0]]) + Escape(text[1..])
  }

  /** The text of a part: variables always in braces. */
  function PartSource(part: Part): string
  {
    match part
    case Literal(text) => Escape(text)
    case Variable(name) => "${" + name + "}"
  }

  function Serialize(parts: seq<Part>): string
  {
    if parts == [] then "" else PartSource(parts[0]) + Serialize(parts[1..])
  }

  /** The templates reading can produce: non-empty literals, never two in a
      row, and proper names. */
  ghost predicate Canonical(parts: seq<Part>)
  {
    && (forall k :: 0 <= k < |parts| && parts[k].Literal? ==> parts[k].text != [])
    && (forall k :: 0 <= k < |parts| && parts[k].Variable? ==> IsName(parts[k].name))
    && (forall j, k :: 0 <= j < k < |parts| && k == j + 1 ==> parts[j].Variable? || parts[k].Variable?)
  }

  /** An escaped literal reads back whole when what follows it starts a
      braced variable (or nothing follows). */
  lemma {:induction false} LiteralRunEscape(text: string, rest: string)
    requires rest == [] || (|rest| >= 2 && rest[0] == '$' && rest[1] == '{')
    ensures LiteralRun(Escape(text) + rest) == (text, rest)
  {
    if text != [] {
      LiteralRunEscape(text[1..], rest);
      if text[0] == '$' {
        EscapeDollarStep(text, rest);
      } else {
        EscapeCharStep(text, rest);
      }
    } else {
      assert Escape(text) + rest == rest;
    }
  }

  lemma EscapeDollarStep(text: string, rest: string)
    requires text != [] && text[0] == '$'
    requires LiteralRun(Escape(text[1..]) + rest) == (text[1..], rest)
    ensures LiteralRun(Escape(text) + rest) == (text, rest)
  {
    var tail := Escape(text[1..]) + rest;
    assert Escape(text) + rest == "$$" + tail;
    LiteralRunDollar(tail);
    assert "$" + text[1..] == text;
  }

  lemma EscapeCharStep(text: string, rest: string)
    requires text != [] && text[0] != '$'
    requires LiteralRun(Escape(text[1..]) + rest) == (text[1..], rest)
    ensures LiteralRun(Escape(text) + rest) == (text, rest)
  {
    var tail := Escape(text[1..]) + rest;
    assert Escape(text) + rest == [text[0]] + tail;
    LiteralRunChar(text[0], tail);
    assert [text[0]] + text[1..] == text;
  }

  /** One step of `LiteralRun`: an escaped dollar. */
  lemma LiteralRunDollar(tail: string)
    ensures LiteralRun("$$" + tail) == ("$" + LiteralRun(tail).0, LiteralRun(tail).1)
  {
    assert ("$$" + tail)[2..] == tail;
  }

  /** One step of `LiteralRun`: a character other than a dollar. */
  lemma LiteralRunChar(c: char, tail: string)
    requires c != '$'
    ensures LiteralRun([c] + tail) == ([c] + LiteralRun(tail).0, LiteralRun(tail).1)
  {
    assert ([c] + tail)[1..] == tail;
  }

  /** An escaped non-empty literal is read as one literal part. */
  lemma ParseLiteralPart(text: string, rest: string)
    requires text != []
    requires rest == [] || (|rest| >= 2 && rest[0] == '$' && rest[1] == '{')
    ensures ParsePart(Escape(text) + rest) == Some((Literal(text), rest))
  {
    var s := Escape(text) + rest;
    LiteralRunEscape(text, rest);
    assert ParsePartVariable(s).None? by {
      if text[0] == '$' {
        assert Escape(text) == "$$" + Escape(text[1..]);
        assert s[0] == '$' && s[1] == '$';
      } else {
        assert Escape(text) == [text[0]] + Escape(text[1..]);
        assert s[0] == text[0];
      }
    }
  }

  /** A braced variable reads back as that variable. */
  lemma ParseBracedVariable(name: string, rest: string)
    requires IsName(name)
    ensures ParsePart("${" + name + "}" + rest) == Some((Variable(name), rest))
  {
    var s := "${" + name + "}" + rest;
    assert s[2..] == name + ("}" + rest);
    ParseVarnameOf(name, "}" + rest);
    assert ("}" + rest)[1..] == rest;
  }

  /** The tail of a canonical template is canonical. */
  lemma CanonicalTail(parts: seq<Part>)
    requires Canonical(parts) && parts != []
    ensures Canonical(parts[1..])
  {
    var tail := parts[1..];
    forall j, k | 0 <= j < k < |tail| && k == j + 1
      ensures tail[j].Variable? || tail[k].Variable?
    {
      assert tail[j] == parts[j + 1] && tail[k] == parts[k + 1];
    }
  }

  /** The first part of a written canonical template is read back first,
      leaving the rest of the text. */
  lemma ParseFirstPart(parts: seq<Part>)
    requires Canonical(parts) && parts != []
    ensures ParsePart(Serialize(parts)) == Some((parts[0], Serialize(parts[1..])))
  {
    var rest := Serialize(parts[1..]);
    match parts[0]
    case Variable(name) =>
      assert Serialize(parts) == "${" + name + "}" + rest;
      ParseBracedVariable(name, rest);
    case Literal(text) =>
      assert Serialize(parts) == Escape(text) + rest;
      assert rest == [] || (|rest| >= 2 && rest[0] == '$' && rest[1] == '{') by {
        if |parts| > 1 {
          assert parts[1].Variable?;
          assert rest == "${" + parts[1].name + "}" + Serialize(parts[2..]);
        }
      }
      ParseLiteralPart(text, rest);
  }

  /** One step of `ParseParts`. */
  lemma ParsePartsStep(s: string)
    requires ParsePart(s).Some?
    ensures ParseParts(s) == ([ParsePart(s).value.0] + ParseParts(ParsePart(s).value.1).0, ParseParts(ParsePart(s).value.1).1)
  {
  }

  /** Reading a written template gives back its parts. */
  lemma {:induction false} ParseSerialize(parts: seq<Part>)
    requires Canonical(parts)
    ensures ParseParts(Serialize(parts)) == (parts, "")
  {
    if parts != [] {
      CanonicalTail(parts);
      ParseSerialize(parts[1..]);
      ParseFirstPart(parts);
      ParsePartsStep(Serialize(parts));
      assert [parts[0]] + parts[1..] == parts;
    }
  }

  /** Deserialising a written template gives it back. */
  lemma DeserializeSerialize(fs: FormatString)
    requires Canonical(fs.parts)
    ensures Deserialize(Serialize(fs.parts)) == Ok(fs)
  {
    ParseSerialize(fs.parts);
  }

  /** A part put before a canonical template keeps it canonical when it is
      proper and is not a literal before a literal. */
  lemma CanonicalCons(head: Part, tail: seq<Part>)
    requires Canonical(tail)
    requires head.Literal? ==> head.text != []
    requires head.Variable? ==> IsName(head.name)
    requires head.Literal? && tail != [] ==> tail[0].Variable?
    ensures Canonical([head] + tail)
  {
    var parts := [head] + tail;
    forall j, k | 0 <= j < k < |parts| && k == j + 1
      ensures parts[j].Variable? || parts[k].Variable?
    {
      if j > 0 {
        assert parts[j] == tail[j - 1] && parts[k] == tail[k - 1];
      }
    }
  }

  /** What reading produces is canonical: a literal run stops only before a
      variable or at the end. */
  lemma {:induction false} ParsePartsCanonical(s: string)
    ensures Canonical(ParseParts(s).0)
    decreases |s|
  {
    var next := ParsePart(s);
    if next.Some? {
      var (head, rest) := next.value;
      ParsePartsCanonical(rest);
      var more := ParseParts(rest).0;
      ParsePartsStep(s);
      if head.Literal? && more != [] {
        assert ParsePartLiteral(s) == next;
        assert ParsePartLiteral(rest).None?;
        ParsePartsStep(rest);
      }
      CanonicalCons(head, more);
    }
  }

  /** Every template that reads writes back to text that reads as it. */
  lemma SerializeDeserialize(s: string)
    requires Deserialize(s).Ok?
    ensures Canonical(Deserialize(s).value.parts)
    ensures Deserialize(Serialize(Deserialize(s).value.parts)) == Deserialize(s)
  {
    ParsePartsCanonical(s);
    DeserializeSerialize(Deserialize(s).value);
  }
}
