/** The printing of requests (src/R2000.cpp:53-66 and 344-354) and of name lists (include/Control/Commands.hpp). */
module Requests {
  import opened Sequences

  /** The parameters of a request, in the order in which the unordered map is iterated. */
  type Pairs = seq<(string, string)>

  const PREFIX := "/cmd/"

  function Join(parts: seq<string>, separator: char): string {
    if parts == [] then ""
    else if |parts| == 1 then parts[0]
    else parts[0] + [separator] + Join(parts[1..], separator)
  }

  function Equation(pair: (string, string)): string {
    pair.0 + "=" + pair.1
  }

  function Equations(pairs: Pairs): (es: seq<string>)
    ensures |es| == |pairs|
  {
    seq(|pairs|, i requires 0 <= i < |pairs| => Equation(pairs[i]))
  }

  function Trimmed(request: string): string {
    if request != "" && request[|request| - 1] == '&' then request[..|request| - 1] else request
  }

  /** What the loops append: every part followed by its separator. */
  function Terminated(parts: seq<string>, separator: char): string {
    if parts == [] then "" else Terminated(parts[..|parts| - 1], separator) + parts[|parts| - 1] + [separator]
  }

  lemma {:induction false} TerminatedIsJoined(parts: seq<string>, separator: char)
    requires parts != []
    ensures Terminated(parts, separator) == Join(parts, separator) + [separator]
  {
    var n := |parts| - 1;
    if n > 0 {
      TerminatedIsJoined(parts[..n], separator);
      JoinSnoc(parts[..n], parts[n], separator);
      assert parts == parts[..n] + [parts[n]];
    } else {
      assert parts[..0] == [];
    }
  }

  lemma {:induction false} JoinSnoc(parts: seq<string>, last: string, separator: char)
    requires parts != []
    ensures Join(parts + [last], separator) == Join(parts, separator) + [separator] + last
  {
    if |parts| > 1 {
      JoinSnoc(parts[1..], last, separator);
      assert (parts + [last])[1..] == parts[1..] + [last];
    } else {
      assert (parts + [last])[1..] == [last];
    }
  }

  /** The path of a request. Its last character is dropped if it is an ampersand, wherever that comes from. */
  function RequestPath(command: string, pairs: Pairs): string {
    if pairs == [] then Trimmed(PREFIX + command)
    else PREFIX + command + "?" + Join(Equations(pairs), '&')
  }

  /** makeRequestFromParameters; sendHttpCommand prints its path with the same statements. */
  method MakeRequestFromParameters(command: string, parameters: Pairs) returns (request: string)
    ensures request == RequestPath(command, parameters)
  {
    request := PREFIX + command;
    if parameters != [] {
      request := request + "?";
    }
    ghost var head := request;
    for i := 0 to |parameters|
      invariant request == head + Terminated(Equations(parameters)[..i], '&')
    {
      var parameter := parameters[i];
      assert Equations(parameters)[..i + 1][..i] == Equations(parameters)[..i];
      request := request + (parameter.0 + "=" + parameter.1 + "&");
    }
    assert Equations(parameters)[..|parameters|] == Equations(parameters);
    if parameters != [] {
      TerminatedIsJoined(Equations(parameters), '&');
    }
    if request[|request| - 1] == '&' {
      request := request[..|request| - 1];
    }
  }

  /** Every path is one of a command, whose name comes first but for an ampersand that is dropped. */
  lemma {:induction false} PathsAreOfCommands(command: string, pairs: Pairs)
    ensures "/cmd/" <= RequestPath(command, pairs)
    ensures pairs != [] || command == "" || command[|command| - 1] != '&' ==>
      "/cmd/" + command <= RequestPath(command, pairs)
  {
    hide Join;
  }

  /** The characters between its parts. */
  lemma {:induction false} PathOfTwo(command: string, p: (string, string), q: (string, string))
    ensures RequestPath(command, [p, q]) == "/cmd/" + command + "?" + p.0 + "=" + p.1 + "&" + q.0 + "=" + q.1
  {
    var es := Equations([p, q]);
    assert es == [Equation(p), Equation(q)] && es[1..] == [Equation(q)];
    assert Join(es, '&') == Equation(p) + "&" + Equation(q);
  }

  /** sendHttpCommand with one parameter: without a name there is no parameter. */
  method PathOfSingleParameter(command: string, parameter: string, value: string) returns (request: string)
    ensures request == RequestPath(command, if parameter == "" then [] else [(parameter, value)])
  {
    var parameters: Pairs := [];
    if parameter != "" {
      parameters := [(parameter, value)];
    }
    request := MakeRequestFromParameters(command, parameters);
  }

  // ----- Reading a request back -----

  function FirstIndex(s: string, c: char): (i: nat)
    ensures i <= |s|
    ensures i < |s| ==> s[i] == c
    ensures forall j | 0 <= j < i :: s[j] != c
  {
    if s == "" || s[0] == c then 0 else 1 + FirstIndex(s[1..], c)
  }

  lemma {:induction false} FirstIndexOf(before: string, c: char, after: string)
    requires c !in before
    ensures FirstIndex(before + [c] + after, c) == |before|
  {
    var s := before + [c] + after;
    assert s[|before|] == c;
    assert forall j | 0 <= j < |before| :: s[j] == before[j];
  }

  function Split(s: string, separator: char): seq<string>
    decreases |s|
  {
    var i := FirstIndex(s, separator);
    if i == |s| then [s] else [s[..i]] + Split(s[i + 1..], separator)
  }

  lemma {:induction false} SplitJoined(parts: seq<string>, separator: char)
    requires parts != [] && forall i | 0 <= i < |parts| :: separator !in parts[i]
    ensures Split(Join(parts, separator), separator) == parts
  {
    var s := Join(parts, separator);
    if |parts| == 1 {
      var i := FirstIndex(s, separator);
      assert i == |s|;
    } else {
      var rest := Join(parts[1..], separator);
      FirstIndexOf(parts[0], separator, rest);
      assert s == parts[0] + [separator] + rest;
      assert s[|parts[0]| + 1..] == rest && s[..|parts[0]|] == parts[0];
      SplitJoined(parts[1..], separator);
      assert parts == [parts[0]] + parts[1..];
    }
  }

  function ParseEquation(s: string): (string, string) {
    var i := FirstIndex(s, '=');
    if i == |s| then (s, "") else (s[..i], s[i + 1..])
  }

  function ParseEquations(es: seq<string>): (pairs: Pairs)
    ensures |pairs| == |es|
  {
    seq(|es|, i requires 0 <= i < |es| => ParseEquation(es[i]))
  }

  function ParseRequest(path: string): (string, Pairs)
    requires |PREFIX| <= |path|
  {
    var rest := path[|PREFIX|..];
    var i := FirstIndex(rest, '?');
    if i == |rest| then (rest, []) else (rest[..i], ParseEquations(Split(rest[i + 1..], '&')))
  }

  /** Names and values without the characters that would end them. */
  predicate Clean(pairs: Pairs) {
    forall i | 0 <= i < |pairs| :: '=' !in pairs[i].0 && '&' !in pairs[i].0 && '&' !in pairs[i].1
  }

  lemma {:induction false} EquationRoundTrip(pair: (string, string))
    requires '=' !in pair.0
    ensures ParseEquation(Equation(pair)) == pair
  {
    FirstIndexOf(pair.0, '=', pair.1);
    var s := Equation(pair);
    assert s == pair.0 + ['='] + pair.1;
    assert s[..|pair.0|] == pair.0 && s[|pair.0| + 1..] == pair.1;
  }

  /** With parameters, the command and the parameters are read back, whatever the order of iteration. */
  lemma {:induction false} RequestRoundTrip(command: string, pairs: Pairs)
    requires '?' !in command && Clean(pairs) && pairs != []
    ensures |PREFIX| <= |RequestPath(command, pairs)|
    ensures ParseRequest(RequestPath(command, pairs)) == (command, pairs)
  {
    var es := Equations(pairs);
    var query := Join(es, '&');
    var path := RequestPath(command, pairs);
    assert path[|PREFIX|..] == command + ['?'] + query;
    FirstIndexOf(command, '?', query);
    assert (command + ['?'] + query)[..|command|] == command;
    assert (command + ['?'] + query)[|command| + 1..] == query;
    SplitJoined(es, '&');
    forall i | 0 <= i < |pairs|
      ensures ParseEquation(es[i]) == pairs[i]
    {
      EquationRoundTrip(pairs[i]);
    }
    assert ParseEquations(es) == pairs;
  }

  /** Without parameters, a command is read back if and only if it does not end with an ampersand, which is dropped. */
  lemma {:induction false} BareRequestRoundTrip(command: string)
    requires '?' !in command
    ensures |PREFIX| <= |RequestPath(command, [])|
    ensures ParseRequest(RequestPath(command, [])) == (command, [])
            <==> command == "" || command[|command| - 1] != '&'
  {
    var path := PREFIX + command;
    assert path[|PREFIX|..] == command;
    assert command != "" ==> path[|path| - 1] == command[|command| - 1];
    assert FirstIndex(command, '?') == |command|;
    if command != "" && command[|command| - 1] == '&' {
      assert |Trimmed(path)[|PREFIX|..]| < |command|;
      var rest := Trimmed(path)[|PREFIX|..];
      assert |ParseRequest(Trimmed(path)).0| <= |rest|;
    }
  }

  predicate Plain(command: string) {
    '?' !in command && '&' !in command
  }

  /** The order of iteration of a map lists each of its entries once. */
  ghost predicate OrderOf(m: map<string, string>, pairs: Pairs) {
    && |pairs| == |m|
    && (forall i | 0 <= i < |pairs| :: pairs[i].0 in m && m[pairs[i].0] == pairs[i].1)
    && (forall k | k in m :: exists i | 0 <= i < |pairs| :: pairs[i].0 == k)
  }

  lemma {:induction false} SameOrderSameMap(m: map<string, string>, m': map<string, string>, pairs: Pairs)
    requires OrderOf(m, pairs) && OrderOf(m', pairs)
    ensures m == m'
  {
    forall k | k in m
      ensures k in m' && m'[k] == m[k]
    {
      var i :| 0 <= i < |pairs| && pairs[i].0 == k;
    }
    forall k | k in m'
      ensures k in m
    {
      var i :| 0 <= i < |pairs| && pairs[i].0 == k;
    }
  }

  /**
   * Two requests with the same path have the same command and the same parameters, however their maps are iterated,
   * and whichever of the two printers made them.
   */
  lemma {:induction false} PrintingIsInjective(
      command: string, m: map<string, string>, pairs: Pairs,
      command': string, m': map<string, string>, pairs': Pairs)
    requires Plain(command) && OrderOf(m, pairs) && Clean(pairs)
    requires Plain(command') && OrderOf(m', pairs') && Clean(pairs')
    requires RequestPath(command, pairs) == RequestPath(command', pairs')
    ensures command == command' && m == m'
  {
    ReadsBack(command, pairs);
    ReadsBack(command', pairs');
    SameOrderSameMap(m, m', pairs);
  }

  lemma {:induction false} ReadsBack(command: string, pairs: Pairs)
    requires Plain(command) && Clean(pairs)
    ensures |PREFIX| <= |RequestPath(command, pairs)|
    ensures ParseRequest(RequestPath(command, pairs)) == (command, pairs)
  {
    if pairs == [] {
      BareRequestRoundTrip(command);
    } else {
      RequestRoundTrip(command, pairs);
    }
  }

  // ----- Lists of names -----

  /** The names of several builders, one after the other. */
  method ChainNames(builders: seq<seq<string>>) returns (parameters: seq<string>)
    ensures parameters == Joined(builders)
  {
    parameters := [];
    for i := 0 to |builders|
      invariant parameters == Joined(builders[..i])
    {
      JoinedAppend(builders[..i], [builders[i]]);
      JoinedOne(builders[i]);
      assert builders[..i + 1] == builders[..i] + [builders[i]];
      parameters := parameters + builders[i];
    }
    assert builders[..|builders|] == builders;
  }

  /** What a chain of builders says of a name: the first of them that has it decides. */
  function FirstWins(builders: seq<map<string, string>>): map<string, string> {
    if builders == [] then map[] else FirstWins(builders[1..]) + builders[0]
  }

  /** The parameters of several builders; inserting into a map does not replace what is there. */
  method ChainMaps(builders: seq<map<string, string>>) returns (parameters: map<string, string>)
    ensures parameters == FirstWins(builders)
  {
    parameters := map[];
    for i := 0 to |builders|
      invariant FirstWins(builders) == FirstWins(builders[i..]) + parameters
    {
      assert builders[i..][0] == builders[i] && builders[i..][1..] == builders[i + 1..];
      parameters := builders[i] + parameters;
    }
  }

  /** The names are those of all builders, and the first builder that has a name decides its value. */
  lemma {:induction false} FirstBuilderDecides(builders: seq<map<string, string>>, name: string)
    ensures name in FirstWins(builders) <==> exists i | 0 <= i < |builders| :: name in builders[i]
    ensures forall i | 0 <= i < |builders| && name in builders[i] && (forall j | 0 <= j < i :: name !in builders[j]) ::
              name in FirstWins(builders) && FirstWins(builders)[name] == builders[i][name]
  {
    if builders != [] {
      FirstBuilderDecides(builders[1..], name);
      assert forall i | 1 <= i < |builders| :: builders[1..][i - 1] == builders[i];
      forall i | 0 <= i < |builders| && name in builders[i] && (forall j | 0 <= j < i :: name !in builders[j])
        ensures name in FirstWins(builders) && FirstWins(builders)[name] == builders[i][name]
      {
        if i > 0 {
          assert name !in builders[0];
          assert forall j | 0 <= j < i - 1 :: builders[1..][j] == builders[j + 1];
        }
      }
    }
  }

  /** chainAndConvertParametersToString; removing the last separator needs at least one name. */
  method ConvertNamesToString(names: seq<string>) returns (parametersAsString: string)
    requires names != []
    ensures parametersAsString == Join(names, ';')
  {
    parametersAsString := "";
    for i := 0 to |names|
      invariant parametersAsString == Terminated(names[..i], ';')
    {
      assert names[..i + 1][..i] == names[..i];
      parametersAsString := parametersAsString + (names[i] + ";");
    }
    assert names[..|names|] == names;
    TerminatedIsJoined(names, ';');
    parametersAsString := parametersAsString[..|parametersAsString| - 1];
  }

  lemma {:induction false} NotInJoined(parts: seq<string>, separator: char, c: char)
    requires c != separator && forall i | 0 <= i < |parts| :: c !in parts[i]
    ensures c !in Join(parts, separator)
  {
    if |parts| > 1 {
      NotInJoined(parts[1..], separator, c);
    }
  }

  /** The device can read from the request the very list of names that was asked for. */
  lemma {:induction false} NamesComeThrough(command: string, list: string, names: seq<string>)
    requires Plain(command) && '=' !in list && '&' !in list && names != []
    requires forall i | 0 <= i < |names| :: ';' !in names[i] && '&' !in names[i]
    ensures var path := RequestPath(command, [(list, Join(names, ';'))]);
      && |PREFIX| <= |path|
      && ParseRequest(path).0 == command
      && |ParseRequest(path).1| == 1
      && ParseRequest(path).1[0].0 == list
      && Split(ParseRequest(path).1[0].1, ';') == names
  {
    NotInJoined(names, ';', '&');
    ReadsBack(command, [(list, Join(names, ';'))]);
    SplitJoined(names, ';');
  }
}
