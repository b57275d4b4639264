/**
 * The AT command server: the service registry and the line parser that
 * turns one received line into a dispatch of a registered service with its
 * argument vector, or an "unknown command" / "wrong arguments" rejection.
 *
 * Characters are classified as the C locale does: printable is 0x20..0x7E,
 * digits are '0'..'9', and only 'a'..'z' change case.
 */
module AtServer {
  import opened MaTypes

  // ---------------------------------------------------------------------------
  // Services
  // ---------------------------------------------------------------------------

  /** A registered command; the callback is abstract and `cb` only names it. */
  datatype Service = Service(name: string, desc: string, args: string, cb: nat)
  {
    /** `argc` as the constructor computes it: one more than the commas of the argument spec. */
    function Argc(): (r: nat)
      ensures r >= 1
      ensures r == 1 <==> ',' !in args
    {
      CountChar(args, ',') + 1
    }
  }

  /** Joining two argument specs with a comma adds their argument counts. */
  lemma ArgcJoin(name: string, a: string, b: string)
    ensures Service(name, "", a + [','] + b, 0).Argc() == Service(name, "", a, 0).Argc() + Service(name, "", b, 0).Argc()
  {
    CountCharAppend(a + [','], b, ',');
    CountCharAppend(a, [','], ',');
    assert CountChar([','], ',') == 1 by {
      assert [','][..0] == [];
    }
  }

  predicate NamesDistinct(services: seq<Service>)
  {
    forall a, b :: 0 <= a < b < |services| ==> services[a].name != services[b].name
  }

  /** The first service named `target`, as `std::find_if` finds it. */
  function FindService(services: seq<Service>, target: string): (r: Option<nat>)
    ensures r.Some? ==> r.value < |services| && services[r.value].name == target
    ensures r.Some? ==> forall k :: 0 <= k < r.value ==> services[k].name != target
    ensures r.None? ==> forall k :: 0 <= k < |services| ==> services[k].name != target
  {
    if services == [] then None
    else if services[0].name == target then Some(0)
    else
      match FindService(services[1..], target)
      case None => None
      case Some(k) => Some(k + 1)
  }

  // ---------------------------------------------------------------------------
  // Line clean-up and command name extraction
  // ---------------------------------------------------------------------------

  predicate IsPrint(c: char) { ' ' <= c <= '~' }

  /** The line with every non-printable character removed, order kept. */
  function StripNonPrintable(s: string): (r: string)
    ensures |r| <= |s|
  {
    if s == [] then []
    else (if IsPrint(s[0]) then [s[0]] else []) + StripNonPrintable(s[1..])
  }

  /** Exactly the printable characters of the line survive. */
  lemma {:induction false} StripKeepsExactlyPrintable(s: string)
    ensures forall c :: c in StripNonPrintable(s) <==> c in s && IsPrint(c)
  {
    if s != [] {
      StripKeepsExactlyPrintable(s[1..]);
      assert s == [s[0]] + s[1..];
    }
  }

  /**
   * Clean-up distributes over concatenation, and a single character is kept
   * exactly when it is printable: together these fix the result completely,
   * order and repetitions included.
   */
  lemma {:induction false} StripConcat(a: string, b: string, c: char)
    ensures StripNonPrintable(a + b) == StripNonPrintable(a) + StripNonPrintable(b)
    ensures StripNonPrintable([c]) == if IsPrint(c) then [c] else []
    decreases |a|
  {
    if a != [] {
      assert (a + b)[0] == a[0] && (a + b)[1..] == a[1..] + b;
      StripConcat(a[1..], b, c);
    } else {
      assert a + b == b;
    }
    assert [c][1..] == [];
  }

  /** A line of printable characters is left as it is. */
  lemma {:induction false} StripKeepsPrintable(s: string)
    requires forall i :: 0 <= i < |s| ==> IsPrint(s[i])
    ensures StripNonPrintable(s) == s
  {
    if s != [] {
      StripKeepsPrintable(s[1..]);
      assert [s[0]] + s[1..] == s;
    }
  }

  /** The position of the first `ch`, as `find_first_of` returns it. */
  function FirstIndexOf(s: string, ch: char): (r: Option<nat>)
    ensures r.Some? ==> r.value < |s| && s[r.value] == ch && ch !in s[..r.value]
    ensures r.None? ==> ch !in s
  {
    if s == [] then None
    else if s[0] == ch then Some(0)
    else
      match FirstIndexOf(s[1..], ch)
      case None => None
      case Some(k) =>
        assert s[..k + 1] == [s[0]] + s[1..][..k];
        Some(k + 1)
  }

  /** Splits `<name>=<args>` at the first '='; without one the whole line is the name. */
  function SplitCommand(line: string): (r: (string, string))
    ensures '=' in line ==> r.0 + "=" + r.1 == line && '=' !in r.0
    ensures '=' !in line ==> r == (line, "")
  {
    match FirstIndexOf(line, '=')
    case Some(p) =>
      assert line == line[..p] + "=" + line[p + 1..];
      (line[..p], line[p + 1..])
    case None => (line, "")
  }

  function UpperChar(c: char): char
  {
    if 'a' <= c <= 'z' then (c as int - 32) as char else c
  }

  /** `std::transform(..., ::toupper)` over the name. */
  function UpperAscii(s: string): (r: string)
    ensures |r| == |s| && forall i :: 0 <= i < |s| ==> r[i] == UpperChar(s[i])
  {
    seq(|s|, i requires 0 <= i < |s| => UpperChar(s[i]))
  }

  predicate HasAtPrefix(name: string)
  {
    |name| >= 3 && name[..3] == "AT+"
  }

  /** The command without its tag: everything after the last '@', or all of it. */
  function AfterLastAt(s: string): (r: string)
    ensures |r| <= |s| && r == s[|s| - |r|..]
    ensures '@' !in r
    ensures '@' in s ==> s[|s| - |r| - 1] == '@'
    ensures '@' !in s ==> r == s
  {
    if s == [] then []
    else if s[|s| - 1] == '@' then []
    else
      var r' := AfterLastAt(s[..|s| - 1]);
      assert s[..|s| - 1][|s| - 1 - |r'|..] + [s[|s| - 1]] == s[|s| - |r'| - 1..];
      r' + [s[|s| - 1]]
  }

  // ---------------------------------------------------------------------------
  // Argument tokenizer
  // ---------------------------------------------------------------------------

  predicate IsQuote(c: char) { c == '\'' || c == '"' }

  /**
   * The quoted token whose opening quote `q` is at or before `idx`, scanned
   * from `idx + 1`: text up to the matching quote, a backslash taking the
   * next character literally. Returns the token and the index after it.
   */
  function QuotedFrom(args: string, idx: nat, q: char, acc: string): (r: (string, nat))
    requires idx <= |args|
    ensures idx < r.1 <= |args| + 1
    decreases |args| - idx
  {
    var k := idx + 1;
    if k >= |args| then (acc, k)
    else if args[k] == q then (acc, k + 1)
    else if args[k] != '\\' then QuotedFrom(args, k, q, acc + [args[k]])
    else if k + 1 < |args| then QuotedFrom(args, k + 1, q, acc + [args[k + 1]])
    else (acc, k + 2)
  }

  /** The end of the run of digits starting at `k`. */
  function DigitRunEnd(args: string, k: nat): (r: nat)
    requires k <= |args|
    ensures k <= r <= |args|
    ensures r == |args| || !IsDigit(args[r])
    decreases |args| - k
  {
    if k >= |args| || !IsDigit(args[k]) then k else DigitRunEnd(args, k + 1)
  }

  /** Every character of the run is a digit. */
  lemma {:induction false} DigitRunAllDigits(args: string, k: nat)
    requires k <= |args|
    ensures forall m :: k <= m < DigitRunEnd(args, k) ==> IsDigit(args[m])
    decreases |args| - k
  {
    if k < |args| && IsDigit(args[k]) {
      DigitRunAllDigits(args, k + 1);
    }
  }

  /** One step of the tokenizer at `index`: the token read there, if any, and where the next step starts. */
  function TokenAt(args: string, index: nat): (r: (Option<string>, nat))
    requires index < |args|
    ensures index < r.1 <= |args| + 1
  {
    var c := args[index];
    if IsQuote(c) then
      var q := QuotedFrom(args, index, c, "");
      (Some(q.0), q.1)
    else if c == '-' || IsDigit(c) then
      var e := DigitRunEnd(args, index + 1);
      (Some(args[index..e]), e)
    else
      (None, index + 1)
  }

  /**
   * The tokens the parser appends to `argv` from position `index` on, until
   * the arguments run out or `argv` holds `limit` entries.
   */
  function Tokenize(args: string, index: nat, argv: seq<string>, limit: nat): (r: seq<string>)
    requires index <= |args| + 1
    ensures index <= |args| ==> |r| + index <= |argv| + |args|
    decreases |args| + 1 - index
  {
    if index >= |args| || |argv| >= limit then argv
    else
      var step := TokenAt(args, index);
      Tokenize(args, step.1, if step.0.Some? then argv + [step.0.value] else argv, limit)
  }

  /** Tokenizing only appends to `argv`, and never beyond `limit` entries. */
  lemma {:induction false} TokenizeBounds(args: string, index: nat, argv: seq<string>, limit: nat)
    requires index <= |args| + 1
    ensures |argv| <= |Tokenize(args, index, argv, limit)|
    ensures Tokenize(args, index, argv, limit)[..|argv|] == argv
    ensures |argv| <= limit ==> |Tokenize(args, index, argv, limit)| <= limit
    decreases |args| + 1 - index
  {
    if index < |args| && |argv| < limit {
      var step := TokenAt(args, index);
      TokenizeBounds(args, step.1, if step.0.Some? then argv + [step.0.value] else argv, limit);
    }
  }

  /** An unquoted token: a '-' or a digit, followed only by digits. */
  predicate NumberToken(t: string)
  {
    |t| >= 1 && (t[0] == '-' || IsDigit(t[0])) && forall m :: 1 <= m < |t| ==> IsDigit(t[m])
  }

  /**
   * Without quotes every token is a number token: any other unquoted
   * character is skipped and never reaches `argv`.
   */
  lemma {:induction false} UnquotedTokensAreNumbers(args: string, index: nat, argv: seq<string>, limit: nat)
    requires index <= |args| + 1
    requires forall m :: index <= m < |args| ==> !IsQuote(args[m])
    ensures forall k :: |argv| <= k < |Tokenize(args, index, argv, limit)| ==> NumberToken(Tokenize(args, index, argv, limit)[k])
    decreases |args| + 1 - index
  {
    TokenizeBounds(args, index, argv, limit);
    if index < |args| && |argv| < limit {
      var step := TokenAt(args, index);
      if step.0.Some? {
        var t := step.0.value;
        if !IsQuote(args[index]) {
          DigitRunAllDigits(args, index + 1);
        }
        assert NumberToken(t);
        UnquotedTokensAreNumbers(args, step.1, argv + [t], limit);
        TokenizeBounds(args, step.1, argv + [t], limit);
        var res := Tokenize(args, index, argv, limit);
        assert res[..|argv| + 1] == argv + [t];
        assert res[|argv|] == t;
      } else {
        UnquotedTokensAreNumbers(args, step.1, argv, limit);
      }
    }
  }

  /** The escaping a sender applies so that `s` survives quoting with `q`. */
  function Escape(s: string, q: char): string
  {
    if s == [] then []
    else (if s[0] == q || s[0] == '\\' then ['\\', s[0]] else [s[0]]) + Escape(s[1..], q)
  }

  /** A quoted, escaped string reads back as itself, and the scan stops just after the closing quote. */
  lemma {:induction false} QuotedRoundTrip(args: string, idx: nat, q: char, acc: string, s: string, rest: string)
    requires IsQuote(q)
    requires idx < |args| && args[idx + 1..] == Escape(s, q) + [q] + rest
    ensures QuotedFrom(args, idx, q, acc) == (acc + s, idx + |Escape(s, q)| + 2)
    decreases |s|
  {
    var k := idx + 1;
    assert args[k] == args[idx + 1..][0];
    if s == [] {
      assert args[idx + 1..] == [q] + rest;
      assert args[k] == q;
      assert acc + s == acc;
    } else if s[0] == q || s[0] == '\\' {
      assert args[k] == '\\' && args[k + 1] == s[0];
      assert args[k + 2..] == Escape(s[1..], q) + [q] + rest;
      QuotedRoundTrip(args, k + 1, q, acc + [s[0]], s[1..], rest);
      assert acc + [s[0]] + s[1..] == acc + s;
    } else {
      assert args[k] == s[0];
      assert args[k + 1..] == Escape(s[1..], q) + [q] + rest;
      QuotedRoundTrip(args, k, q, acc + [s[0]], s[1..], rest);
      assert acc + [s[0]] + s[1..] == acc + s;
    }
  }

  /** An unterminated quote without backslashes takes the rest of the line. */
  lemma {:induction false} UnterminatedQuoteTakesRest(args: string, idx: nat, q: char, acc: string)
    requires idx < |args|
    requires forall m :: idx < m < |args| ==> args[m] != q && args[m] != '\\'
    ensures QuotedFrom(args, idx, q, acc) == (acc + args[idx + 1..], |args|)
    decreases |args| - idx
  {
    var k := idx + 1;
    if k < |args| {
      UnterminatedQuoteTakesRest(args, k, q, acc + [args[k]]);
      assert acc + [args[k]] + args[k + 1..] == acc + args[idx + 1..];
    } else {
      assert acc + args[idx + 1..] == acc;
    }
  }

  // ---------------------------------------------------------------------------
  // execute
  // ---------------------------------------------------------------------------

  datatype Outcome = Rejected(err: Err) | Dispatched(service: nat, argv: seq<string>)

  /** A line resolved to a service: its index, the name without "AT+" (tag kept) and the argument text. */
  datatype Resolved = Resolved(index: nat, name: string, args: string)

  /** The command part of a line: printable characters before the first '=', upper-cased. */
  function CommandName(line: string): string
  {
    UpperAscii(SplitCommand(StripNonPrintable(line)).0)
  }

  /** The argument part of a line: printable characters after the first '='. */
  function CommandArgs(line: string): string
  {
    SplitCommand(StripNonPrintable(line)).1
  }

  /** Prefix check, tag removal and look-up of the service a line names. */
  function Resolve(services: seq<Service>, line: string): (r: Option<Resolved>)
    ensures r.Some? ==> r.value.index < |services|
  {
    var name := CommandName(line);
    if !HasAtPrefix(name) then None
    else
      var body := name[3..];
      match FindService(services, AfterLastAt(body))
      case None => None
      case Some(k) => Some(Resolved(k, body, CommandArgs(line)))
  }

  /** A resolved line starts with "AT+" and names, after its last '@', the service found. */
  lemma ResolveSound(services: seq<Service>, line: string)
    requires Resolve(services, line).Some?
    ensures var r := Resolve(services, line).value;
            && services[r.index].name == AfterLastAt(r.name)
            && HasAtPrefix(CommandName(line)) && r.name == CommandName(line)[3..]
            && r.args == CommandArgs(line)
  {
  }

  /**
   * Tokenizes the arguments of a resolved line into at most `limit` entries
   * and dispatches when at least `required` of them were found.
   */
  function Dispatch(r: Resolved, limit: nat, required: nat): Outcome
  {
    var argv := Tokenize(r.args, 0, [r.name], limit);
    if |argv| < required then Rejected(EInval) else Dispatched(r.index, argv)
  }

  /** A dispatched vector starts with the command name and has between `required` and `limit` entries. */
  lemma DispatchBounds(r: Resolved, limit: nat, required: nat)
    requires 1 <= limit
    ensures var o := Dispatch(r, limit, required);
            o.Dispatched? ==> o.service == r.index && |o.argv| >= 1 && o.argv[0] == r.name && required <= |o.argv| <= limit
  {
    TokenizeBounds(r.args, 0, [r.name], limit);
    var argv := Tokenize(r.args, 0, [r.name], limit);
    assert argv[0] == argv[..1][0];
  }

  /**
   * The arity check as the source writes it, applied to the outcome of
   * `Resolve`: the only error is `EInval`, and a dispatch names the resolved
   * service.
   */
  function DispatchResolved(services: seq<Service>, res: Option<Resolved>): (o: Outcome)
    requires res.Some? ==> res.value.index < |services|
    ensures o.Rejected? ==> o.err == EInval
    ensures o.Dispatched? ==> res.Some? && o.service == res.value.index
  {
    match res
    case None => Rejected(EInval)
    case Some(r) =>
      var argc := services[r.index].Argc();
      Dispatch(r, argc + 1, argc)
  }

  /** A dispatched outcome carries the resolved service and name and has `argc` or `argc + 1` entries. */
  lemma DispatchResolvedBounds(services: seq<Service>, res: Option<Resolved>)
    requires res.Some? ==> res.value.index < |services|
    requires DispatchResolved(services, res).Dispatched?
    ensures var o := DispatchResolved(services, res);
            && res.Some? && o.service == res.value.index
            && |o.argv| >= 1 && o.argv[0] == res.value.name
            && services[o.service].Argc() <= |o.argv| <= services[o.service].Argc() + 1
  {
    var r := res.value;
    var argc := services[r.index].Argc();
    DispatchBounds(r, argc + 1, argc);
  }

  /**
   * What one call of `execute` does, with the arity check as the source
   * writes it: an `EInval` rejection, or a registered service dispatched
   * with the command name first.
   */
  function ExecuteSpec(services: seq<Service>, line: string): (o: Outcome)
    ensures o.Rejected? ==> o.err == EInval
    ensures o.Dispatched? ==> o.service < |services|
  {
    DispatchResolved(services, Resolve(services, line))
  }

  lemma DispatchResolvedSome(services: seq<Service>, r: Resolved)
    requires r.index < |services|
    ensures DispatchResolved(services, Some(r)) == Dispatch(r, services[r.index].Argc() + 1, services[r.index].Argc())
  {
  }

  /** `Dispatch` compares the number of tokens found with the number required. */
  lemma DispatchTokenized(r: Resolved, limit: nat, required: nat, argv: seq<string>)
    requires argv == Tokenize(r.args, 0, [r.name], limit)
    ensures Dispatch(r, limit, required) == if |argv| < required then Rejected(EInval) else Dispatched(r.index, argv)
  {
  }

  /**
   * A dispatched command names an existing service by its untagged name;
   * `argv[0]` is the command name and the vector has `argc` or `argc + 1` entries.
   */
  lemma ExecuteDispatch(services: seq<Service>, line: string)
    requires ExecuteSpec(services, line).Dispatched?
    ensures var o := ExecuteSpec(services, line);
            && o.service < |services|
            && |o.argv| >= 1
            && services[o.service].name == AfterLastAt(o.argv[0])
            && HasAtPrefix(CommandName(line))
            && o.argv[0] == CommandName(line)[3..]
            && services[o.service].Argc() <= |o.argv| <= services[o.service].Argc() + 1
  {
    DispatchResolvedBounds(services, Resolve(services, line));
    ResolveSound(services, line);
  }

  /** No service is dispatched for a name without the "AT+" prefix or with an unknown command. */
  lemma ExecuteRejectsUnknown(services: seq<Service>, line: string)
    requires var name := CommandName(line);
             !HasAtPrefix(name) || forall k :: 0 <= k < |services| ==> services[k].name != AfterLastAt(name[3..])
    ensures ExecuteSpec(services, line) == Rejected(EInval)
  {
  }

  /** A name made only of upper-case letters, digits and '_'. */
  predicate PlainName(name: string)
  {
    forall i :: 0 <= i < |name| ==> 'A' <= name[i] <= 'Z' || IsDigit(name[i]) || name[i] == '_'
  }

  /** `AT+<name>` with a plain name and no '=' has that whole line as its command part and no arguments. */
  lemma PlainLineSplits(name: string)
    requires PlainName(name)
    ensures CommandName("AT+" + name) == "AT+" + name && CommandArgs("AT+" + name) == ""
  {
    var line := "AT+" + name;
    forall i | 0 <= i < |line|
      ensures IsPrint(line[i]) && line[i] != '=' && !('a' <= line[i] <= 'z')
    {
      if i >= 3 {
        assert line[i] == name[i - 3];
      }
    }
    StripKeepsPrintable(line);
    assert '=' !in line;
    assert UpperAscii(line) == line;
  }

  /** `AT+<name>` resolves to the only service, named `name`, with no argument text. */
  lemma PlainLineResolves(s: Service)
    requires PlainName(s.name)
    ensures Resolve([s], "AT+" + s.name) == Some(Resolved(0, s.name, ""))
  {
    var line := "AT+" + s.name;
    PlainLineSplits(s.name);
    assert line[..3] == "AT+" && line[3..] == s.name;
    assert '@' !in s.name by {
      forall i | 0 <= i < |s.name| ensures s.name[i] != '@' { }
    }
  }

  /**
   * The arity check as written admits one argument fewer than declared: a
   * service declaring exactly one argument, called without '=', is
   * dispatched with `argv == [name]`, although its callback reads `argv[1]`.
   */
  lemma ArityAdmitsMissingArgument(s: Service)
    requires PlainName(s.name) && ',' !in s.args
    ensures s.Argc() == 1
    ensures ExecuteSpec([s], "AT+" + s.name) == Dispatched(0, [s.name])
  {
    PlainLineResolves(s);
    assert Tokenize("", 0, [s.name], 2) == [s.name];
  }

  /** The YIELD service of the server, declared with the single argument `TIME_S`, is such a service. */
  lemma YieldDispatchedWithoutArgument(svc: Service)
    requires svc == Service("YIELD", "Yield running tasks for a period time", "TIME_S", 0)
    ensures svc.Argc() == 1
    ensures ExecuteSpec([svc], "AT+" + svc.name) == Dispatched(0, [svc.name])
  {
    assert PlainName(svc.name);
    ArityAdmitsMissingArgument(svc);
  }

  /** The evident intent: a service with an empty argument spec takes no argument. */
  function IntendedArgc(s: Service): nat
  {
    if s.args == [] then 0 else s.Argc()
  }

  /** The arity check as evidently intended, applied to the outcome of `Resolve`. */
  function DispatchIntended(services: seq<Service>, res: Option<Resolved>): (o: Outcome)
    requires res.Some? ==> res.value.index < |services|
    ensures o.Rejected? ==> o.err == EInval
    ensures o.Dispatched? ==> res.Some? && o.service == res.value.index
  {
    match res
    case None => Rejected(EInval)
    case Some(r) =>
      var argc := IntendedArgc(services[r.index]);
      Dispatch(r, argc + 1, argc + 1)
  }

  /**
   * `execute` with the arity counted as intended and every declared argument
   * required. It never dispatches a line the written check rejects.
   */
  function ExecuteIntended(services: seq<Service>, line: string): (o: Outcome)
    ensures o.Rejected? ==> o.err == EInval
    ensures o.Dispatched? ==> ExecuteSpec(services, line).Dispatched? && ExecuteSpec(services, line).service == o.service
  {
    var res := Resolve(services, line);
    if res.Some? then
      IntendedNarrowsWritten(services, res.value);
      DispatchIntended(services, res)
    else DispatchIntended(services, res)
  }

  /** Whatever the intended check dispatches, the written check dispatches too. */
  lemma IntendedNarrowsWritten(services: seq<Service>, r: Resolved)
    requires r.index < |services|
    ensures DispatchIntended(services, Some(r)).Dispatched? ==> DispatchResolved(services, Some(r)).Dispatched?
  {
    var argc := services[r.index].Argc();
    DispatchResolvedSome(services, r);
    DispatchIntendedSome(services, r);
    TokenizeBounds(r.args, 0, [r.name], argc + 1);
  }

  lemma DispatchIntendedExact(services: seq<Service>, res: Option<Resolved>)
    requires res.Some? ==> res.value.index < |services|
    requires DispatchIntended(services, res).Dispatched?
    ensures var o := DispatchIntended(services, res);
            o.service < |services| && |o.argv| == IntendedArgc(services[o.service]) + 1
  {
    var r := res.value;
    DispatchBounds(r, IntendedArgc(services[r.index]) + 1, IntendedArgc(services[r.index]) + 1);
  }

  /** With the intended check, a dispatched callback gets exactly the name plus every declared argument. */
  lemma IntendedArityExact(services: seq<Service>, line: string)
    requires ExecuteIntended(services, line).Dispatched?
    ensures var o := ExecuteIntended(services, line);
            o.service < |services| && |o.argv| == IntendedArgc(services[o.service]) + 1
  {
    DispatchIntendedExact(services, Resolve(services, line));
  }

  /** With the intended check, a service that declares arguments is not dispatched without them. */
  lemma IntendedRejectsMissingArgument(s: Service)
    requires PlainName(s.name) && s.args != []
    ensures IntendedArgc(s) >= 1
    ensures ExecuteIntended([s], "AT+" + s.name) == Rejected(EInval)
  {
    PlainLineResolves(s);
    assert Tokenize("", 0, [s.name], IntendedArgc(s) + 1) == [s.name];
  }

  /** YIELD called without its argument is rejected by the intended check. */
  lemma YieldNeedsArgument(svc: Service)
    requires svc == Service("YIELD", "Yield running tasks for a period time", "TIME_S", 0)
    ensures ExecuteIntended([svc], "AT+" + svc.name) == Rejected(EInval)
  {
    assert PlainName(svc.name);
    IntendedRejectsMissingArgument(svc);
  }

  lemma DispatchIntendedSome(services: seq<Service>, r: Resolved)
    requires r.index < |services|
    ensures DispatchIntended(services, Some(r)) == Dispatch(r, IntendedArgc(services[r.index]) + 1, IntendedArgc(services[r.index]) + 1)
  {
  }

  /**
   * For a service that declares arguments, the intended check changes an
   * outcome exactly when the written check let a call through with one
   * argument missing.
   */
  lemma IntendedAgreesOnCompleteCalls(services: seq<Service>, r: Resolved)
    requires r.index < |services| && services[r.index].args != []
    ensures var o := DispatchResolved(services, Some(r));
            DispatchIntended(services, Some(r)) == o <==> o.Rejected? || |o.argv| == services[r.index].Argc() + 1
  {
    var argc := services[r.index].Argc();
    DispatchResolvedSome(services, r);
    DispatchIntendedSome(services, r);
    DispatchBounds(r, argc + 1, argc);
  }

  /** The tokenizer loop of `execute`: the quote stack, escapes and digit runs. */
  method TokenizeArgs(args: string, name: string, limit: nat) returns (argv: seq<string>)
    ensures argv == Tokenize(args, 0, [name], limit)
  {
    argv := [name];
    var index: nat := 0;
    var size := |args|;
    while index < size && |argv| < limit
      invariant index <= size + 1
      invariant Tokenize(args, index, argv, limit) == Tokenize(args, 0, [name], limit)
      decreases size + 1 - index
    {
      var c := args[index];
      if c == '\'' || c == '"' {
        var arg;
        arg, index := ReadQuoted(args, index);
        argv := argv + [arg];
      } else if c == '-' || IsDigit(c) {
        var prev := index;
        index := index + 1;
        while index < size && IsDigit(args[index])
          invariant prev < index <= size
          invariant DigitRunEnd(args, index) == DigitRunEnd(args, prev + 1)
          decreases size - index
        {
          index := index + 1;
        }
        argv := argv + [args[prev..index]];
      } else {
        index := index + 1;
      }
    }
  }

  /** The inner loop of the tokenizer: a quoted token read with a one-quote stack. */
  method ReadQuoted(args: string, start: nat) returns (arg: string, index: nat)
    requires start < |args| && IsQuote(args[start])
    ensures (arg, index) == QuotedFrom(args, start, args[start], "")
  {
    var c := args[start];
    var size := |args|;
    var stk: seq<char> := [c];
    arg := "";
    index := start + 1;
    while index < size && |stk| > 0
      invariant start < index <= size + 1
      invariant stk == [] || stk == [c]
      invariant stk == [c] ==> QuotedFrom(args, index - 1, c, arg) == QuotedFrom(args, start, c, "")
      invariant stk == [] ==> (arg, index) == QuotedFrom(args, start, c, "")
      decreases size + 1 - index
    {
      var d := args[index];
      if d == stk[|stk| - 1] {
        stk := stk[..|stk| - 1];
      } else if d != '\\' {
        arg := arg + [d];
      } else {
        index := index + 1;
        if index < size {
          arg := arg + [args[index]];
        }
      }
      index := index + 1;
    }
  }

  // ---------------------------------------------------------------------------
  // The server object
  // ---------------------------------------------------------------------------

  class ATServer {
    /** `m_services`, in registration order. */
    var services: seq<Service>

    ghost predicate Valid()
      reads this
    {
      NamesDistinct(services)
    }

    constructor ()
      ensures Valid() && services == []
    {
      services := [];
    }

    /** Registers `service` unless a service of the same name exists. */
    method AddService(service: Service) returns (err: Err)
      requires Valid()
      modifies this
      ensures Valid()
      ensures (exists k :: 0 <= k < |old(services)| && old(services)[k].name == service.name) ==>
                err == EExist && services == old(services)
      ensures (forall k :: 0 <= k < |old(services)| ==> old(services)[k].name != service.name) ==>
                err == Ok && services == old(services) + [service]
    {
      var i := 0;
      while i < |services|
        invariant 0 <= i <= |services|
        invariant forall k :: 0 <= k < i ==> services[k].name != service.name
      {
        if services[i].name == service.name {
          return EExist;
        }
        i := i + 1;
      }
      services := services + [service];
      err := Ok;
    }

    /** Cleans the line, checks the "AT+" prefix and looks up the service it names. */
    method ResolveLine(line: string) returns (res: Option<Resolved>)
      ensures res == Resolve(services, line)
    {
      var split := SplitCommand(StripNonPrintable(line));
      var name := UpperAscii(split.0);
      var args := split.1;
      if !HasAtPrefix(name) {
        return None;
      }
      name := name[3..];
      var found := FindService(services, AfterLastAt(name));
      if found.None? {
        return None;
      }
      res := Some(Resolved(found.value, name, args));
    }

    /** Tokenizes the arguments of a resolved line and requires every declared argument. */
    method DispatchLine(res: Resolved) returns (r: Outcome)
      requires res.index < |services|
      ensures r == DispatchIntended(services, Some(res))
      ensures services[res.index].args != [] && r.Dispatched? ==> r == DispatchResolved(services, Some(res))
    {
      if services[res.index].args != [] && DispatchIntended(services, Some(res)).Dispatched? {
        IntendedAgreesOnCompleteCalls(services, res);
        DispatchIntendedExact(services, Some(res));
      }
      var argc := IntendedArgc(services[res.index]);
      var argv := TokenizeArgs(res.args, res.name, argc + 1);
      DispatchIntendedSome(services, res);
      DispatchTokenized(res, argc + 1, argc + 1, argv);
      if |argv| < argc + 1 {
        return Rejected(EInval);
      }
      r := Dispatched(res.index, argv);
    }

    /**
     * Parses one line and dispatches it with exactly its declared
     * arguments, or rejects it with `EInval`.
     */
    method Execute(line: string) returns (r: Outcome)
      ensures r == ExecuteIntended(services, line)
    {
      var res := ResolveLine(line);
      if res.None? {
        return Rejected(EInval);
      }
      r := DispatchLine(res.value);
    }
  }
}
