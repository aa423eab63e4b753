/**
 * `CLIUtils` (release 1.4): reads `key=value` command-line arguments. The
 * verbosity flag is looked up on its own; the full reading checks every key
 * against the allowed names, strips one pair of surrounding quotes, and
 * ends the program with a usage message when a required group of names has
 * no member present. Printing is not modelled; leaving through
 * `System.exit` is the `UsageAndExit` error.
 */
module CLIArguments {
  import opened Java

  /** `ArgumentNaming.ARG_VERBOSE`. */
  const ARG_VERBOSE: string := "verbose"

  /** The position of the first `c` in `s`, or -1 (`String.indexOf`). */
  function IndexOf(s: string, c: char): (r: int)
    ensures -1 <= r < |s|
    ensures r >= 0 ==> s[r] == c && c !in s[..r]
    ensures r == -1 <==> c !in s
  {
    if s == [] then -1
    else if s[0] == c then 0
    else
      var rest := IndexOf(s[1..], c);
      assert s == [s[0]] + s[1..];
      assert rest >= 0 ==> s[..rest + 1] == [s[0]] + s[1..][..rest];
      if rest == -1 then -1 else rest + 1
  }

  /**
   * `StringUtils.substringBefore(s, "=")`: the longest prefix of `s` without
   * `=`, that is all of `s` when there is no `=`.
   */
  function Key(s: string): (r: string)
    ensures |r| <= |s|
  {
    var pos := IndexOf(s, '=');
    if pos == -1 then s else s[..pos]
  }

  /**
   * `StringUtils.substringAfter(s, "=")`: what follows the first `=`, which
   * may hold more `=`; empty when there is no `=`.
   */
  function Value(s: string): (r: string)
    ensures '=' !in s ==> r == ""
  {
    var pos := IndexOf(s, '=');
    if pos == -1 then "" else s[pos + 1..]
  }

  /** The key is the part of `s` before its first `=`, or all of `s`. */
  lemma KeyIsPrefixBeforeFirstEquals(s: string)
    ensures '=' !in Key(s)
    ensures Key(s) == s[..|Key(s)|]
    ensures |Key(s)| == |s| || s[|Key(s)|] == '='
  {
    var pos := IndexOf(s, '=');
    assert pos >= 0 ==> Key(s) == s[..pos];
  }

  /** Key, the first `=` and the value put back together give the argument. */
  lemma KeyAndValueRebuildArgument(s: string)
    requires '=' in s
    ensures s == Key(s) + "=" + Value(s)
  {
    var pos := IndexOf(s, '=');
    assert s == s[..pos] + [s[pos]] + s[pos + 1..];
  }

  /** ASCII lower case. */
  function Lower(c: char): char
  {
    if 'A' <= c <= 'Z' then (c as int - 'A' as int + 'a' as int) as char else c
  }

  predicate EqualsIgnoreCase(s: string, t: string)
  {
    |s| == |t| && forall i :: 0 <= i < |s| ==> Lower(s[i]) == Lower(t[i])
  }

  /** `BooleanUtils.toBoolean(s)`: "true", "on" or "yes" in any case. */
  function ToBoolean(s: string): bool
  {
    EqualsIgnoreCase(s, "true") || EqualsIgnoreCase(s, "on") || EqualsIgnoreCase(s, "yes")
  }

  /** `s` in ASCII lower case. */
  function LowerCase(s: string): (r: string)
    ensures |r| == |s| && forall i :: 0 <= i < |s| ==> r[i] == Lower(s[i])
  {
    if s == [] then [] else [Lower(s[0])] + LowerCase(s[1..])
  }

  /** Against a lower-case `t`, ignoring case means lower-casing `s`. */
  lemma EqualsIgnoreCaseLowered(s: string, t: string)
    requires forall i :: 0 <= i < |t| ==> Lower(t[i]) == t[i]
    ensures EqualsIgnoreCase(s, t) <==> LowerCase(s) == t
  {
    if EqualsIgnoreCase(s, t) {
      assert forall i :: 0 <= i < |t| ==> LowerCase(s)[i] == t[i];
    }
  }

  /** A value is true exactly when, lower-cased, it reads "true", "on" or "yes". */
  lemma ToBooleanMeansTrueOnOrYes(s: string)
    ensures ToBoolean(s) <==> LowerCase(s) in {"true", "on", "yes"}
  {
    EqualsIgnoreCaseLowered(s, "true");
    EqualsIgnoreCaseLowered(s, "on");
    EqualsIgnoreCaseLowered(s, "yes");
  }

  /** An argument that sets the verbosity: key `verbose` and a non-empty value. */
  predicate SetsVerbosity(a: string)
  {
    Key(a) == ARG_VERBOSE && Value(a) != ""
  }

  /**
   * The verbosity `getVerbosity` computes: the value of the first argument
   * that sets it, true when none does.
   */
  function Verbosity(args: seq<string>): (r: bool)
    ensures !r ==> exists i :: 0 <= i < |args| && SetsVerbosity(args[i]) && !ToBoolean(Value(args[i]))
  {
    if args == [] then true
    else if SetsVerbosity(args[0]) then ToBoolean(Value(args[0]))
    else Verbosity(args[1..])
  }

  /** With no argument setting the verbosity, it is on. */
  lemma {:induction false} VerbosityDefaultsToTrue(args: seq<string>)
    requires forall i :: 0 <= i < |args| ==> !SetsVerbosity(args[i])
    ensures Verbosity(args)
  {
    if args != [] {
      assert !SetsVerbosity(args[0]);
      VerbosityDefaultsToTrue(args[1..]);
    }
  }

  /** The first argument that sets the verbosity decides it; later ones are ignored. */
  lemma {:induction false} FirstVerbosityArgumentDecides(args: seq<string>, i: nat)
    requires i < |args| && SetsVerbosity(args[i])
    requires forall j :: 0 <= j < i ==> !SetsVerbosity(args[j])
    ensures Verbosity(args) == ToBoolean(Value(args[i]))
  {
    if i > 0 {
      assert !SetsVerbosity(args[0]);
      FirstVerbosityArgumentDecides(args[1..], i - 1);
    }
  }

  /** `getVerbosity`: the loop returns at the first argument that sets the verbosity. */
  method GetVerbosity(args: seq<string>) returns (r: bool)
    ensures r == Verbosity(args)
  {
    var i := 0;
    while i < |args|
      invariant 0 <= i <= |args|
      invariant Verbosity(args[i..]) == Verbosity(args)
    {
      var key := Key(args[i]);
      var value := Value(args[i]);
      assert args[i..][1..] == args[i + 1..];
      if key == "" || value == "" {
        i := i + 1;
        continue;
      }
      if key == ARG_VERBOSE {
        return ToBoolean(value);
      }
      i := i + 1;
    }
    r := true;
  }

  /** Every name of every group. */
  function Names(groups: seq<seq<string>>): (r: set<string>)
    ensures forall g, n :: 0 <= g < |groups| && n in groups[g] ==> n in r
    ensures forall n :: n in r ==> exists g :: 0 <= g < |groups| && n in groups[g]
  {
    if groups == [] then {}
    else
      var last := groups[|groups| - 1];
      Names(groups[..|groups| - 1]) + set n | n in last
  }

  /**
   * A value in quotes loses its first and last character; a value that is a
   * single `"` makes `substring(1, 0)` throw.
   */
  function Unquoted(value: string): (r: Result<string>)
    requires value != ""
    ensures r.Failure? <==> value == "\""
    ensures r.Failure? ==> r.error == StringIndexOutOfBounds
    ensures r.Success? && value[0] == '"' && value[|value| - 1] == '"' ==> |r.value| == |value| - 2
    ensures r.Success? && !(value[0] == '"' && value[|value| - 1] == '"') ==> r.value == value
  {
    if value[0] == '"' && value[|value| - 1] == '"' then
      if |value| == 1 then Failure(StringIndexOutOfBounds) else Success(value[1..|value| - 1])
    else Success(value)
  }

  /** A quoted value is its unquoted form with one quote put back on each side. */
  lemma UnquotedRequotes(value: string)
    requires value != "" && value[0] == '"' && value[|value| - 1] == '"'
    requires Unquoted(value).Success?
    ensures "\"" + Unquoted(value).value + "\"" == value
  {
    assert value == [value[0]] + value[1..|value| - 1] + [value[|value| - 1]];
  }

  /** An argument the loop rejects with `IllegalArgumentException`. */
  predicate BadArgument(a: string, names: set<string>)
  {
    Key(a) == "" || Value(a) == "" || Key(a) !in names
  }

  /** An argument the loop throws at: a bad one, or one whose value is a lone `"`. */
  predicate Rejected(a: string, names: set<string>)
  {
    BadArgument(a, names) || Value(a) == "\""
  }

  /**
   * The exception the argument loop raises at the argument `a`, if any: a
   * bad argument, or a value that is a lone `"`, which `substring` rejects.
   */
  function ArgumentError(a: string, names: set<string>): (r: Option<Error>)
    ensures r.Some? <==> Rejected(a, names)
  {
    if BadArgument(a, names) then Some(IllegalArgument("Bad argument: " + a))
    else if Value(a) == "\"" then Some(StringIndexOutOfBounds)
    else None
  }

  /** The position of the first element of `s` that satisfies `p`. */
  function FirstWhere<T>(s: seq<T>, p: T -> bool): (r: Option<nat>)
    ensures r.Some? ==> r.value < |s| && p(s[r.value])
    ensures r.Some? ==> forall j :: 0 <= j < r.value ==> !p(s[j])
    ensures r.None? ==> forall j :: 0 <= j < |s| ==> !p(s[j])
  {
    if s == [] then None
    else if p(s[0]) then Some(0)
    else
      var rest := FirstWhere(s[1..], p);
      assert forall j :: 0 < j < |s| ==> s[j] == s[1..][j - 1];
      if rest.None? then None else Some(rest.value + 1)
  }

  /**
   * The position of the first argument the loop raises an exception at:
   * that argument is rejected and every one before it is fine; finding none
   * means every argument is fine.
   */
  function FirstError(args: seq<string>, names: set<string>): (r: Option<nat>)
    ensures r.Some? ==> r.value < |args| && Rejected(args[r.value], names)
    ensures r.Some? ==> forall j :: 0 <= j < r.value ==> !Rejected(args[j], names)
    ensures r.None? ==> forall j :: 0 <= j < |args| ==> !Rejected(args[j], names)
  {
    FirstWhere(args, a => Rejected(a, names))
  }

  /**
   * The argument loop of `getArgumentValues`, from `values` on: the first
   * bad argument raises its error; a good one stores its unquoted value
   * under its key, replacing an earlier one.
   */
  function Collect(args: seq<string>, names: set<string>, values: map<string, string>): (r: Result<map<string, string>>)
    ensures r.Success? ==> forall k :: k in values ==> k in r.value
    ensures r.Success? ==> forall k :: k in r.value ==> k in values || k in names
    ensures r.Success? ==> forall j :: 0 <= j < |args| ==> !Rejected(args[j], names)
    ensures r.Failure? ==> r.error == StringIndexOutOfBounds || exists a :: a in args && r.error == IllegalArgument("Bad argument: " + a)
  {
    if args == [] then Success(values)
    else if BadArgument(args[0], names) then Failure(IllegalArgument("Bad argument: " + args[0]))
    else
      match Unquoted(Value(args[0]))
      case Failure(e) => Failure(e)
      case Success(v) =>
        var r := Collect(args[1..], names, values[Key(args[0]) := v]);
        assert r.Failure? && r.error != StringIndexOutOfBounds ==> exists a :: a in args && r.error == IllegalArgument("Bad argument: " + a) by {
          if r.Failure? && r.error != StringIndexOutOfBounds {
            var a :| a in args[1..] && r.error == IllegalArgument("Bad argument: " + a);
            assert a in args;
          }
        }
        r
  }

  /** The loop fails exactly when some argument is rejected, and the first one decides the exception. */
  lemma {:induction false} CollectFailsAtFirstError(args: seq<string>, names: set<string>, values: map<string, string>)
    ensures Collect(args, names, values).Failure? <==> FirstError(args, names).Some?
    ensures Collect(args, names, values).Failure? ==>
      ArgumentError(args[FirstError(args, names).value], names) == Some(Collect(args, names, values).error)
  {
    if args == [] {
    } else if Rejected(args[0], names) {
      assert FirstError(args, names) == Some(0);
    } else {
      var v := Unquoted(Value(args[0])).value;
      var rest := values[Key(args[0]) := v];
      assert Collect(args, names, values) == Collect(args[1..], names, rest);
      CollectFailsAtFirstError(args[1..], names, rest);
      var f := FirstError(args[1..], names);
      assert f.Some? ==> FirstError(args, names) == Some(f.value + 1) && args[f.value + 1] == args[1..][f.value];
    }
  }

  /** Every key the loop adds is the key of some argument. */
  lemma {:induction false} CollectKeysComeFromArguments(args: seq<string>, names: set<string>, values: map<string, string>, k: string)
    requires Collect(args, names, values).Success?
    requires k in Collect(args, names, values).value && k !in values
    ensures exists j :: 0 <= j < |args| && Key(args[j]) == k
  {
    var v := Unquoted(Value(args[0])).value;
    if k == Key(args[0]) {
      assert Key(args[0]) == k;
    } else {
      CollectKeysComeFromArguments(args[1..], names, values[Key(args[0]) := v], k);
      var j :| 0 <= j < |args[1..]| && Key(args[1..][j]) == k;
      assert Key(args[j + 1]) == k;
    }
  }

  /** A group of required names with at least one member among the keys. */
  predicate GroupPresent(group: seq<string>, values: map<string, string>)
  {
    exists n :: n in group && n in values
  }

  /** `getArgumentValues`, its result or the exception or exit that ends it. */
  function ArgumentValues(args: seq<string>, required: seq<seq<string>>, optional: seq<seq<string>>)
    : (r: Result<map<string, string>>)
    ensures r.Success? ==> r.value.Keys <= Names(required) + Names(optional)
    ensures r.Success? ==> forall k :: k in r.value.Keys ==> exists j :: 0 <= j < |args| && Key(args[j]) == k
    ensures r.Success? ==> forall g :: 0 <= g < |required| ==> GroupPresent(required[g], r.value)
    ensures var first := FirstError(args, Names(required) + Names(optional));
      first.Some? ==> r.Failure? && ArgumentError(args[first.value], Names(required) + Names(optional)) == Some(r.error)
    ensures r.Failure? && FirstError(args, Names(required) + Names(optional)).None? ==> r.error == UsageAndExit
    ensures var c := Collect(args, Names(required) + Names(optional), map[]);
      r.Success? <==> c.Success? && forall g :: 0 <= g < |required| ==> GroupPresent(required[g], c.value)
    ensures r.Success? ==> r.value == Collect(args, Names(required) + Names(optional), map[]).value
  {
    var names := Names(required) + Names(optional);
    CollectFailsAtFirstError(args, names, map[]);
    match Collect(args, names, map[])
    case Failure(e) => Failure(e)
    case Success(values) =>
      assert forall k :: k in values.Keys ==> exists j :: 0 <= j < |args| && Key(args[j]) == k by {
        forall k | k in values.Keys
          ensures exists j :: 0 <= j < |args| && Key(args[j]) == k
        {
          CollectKeysComeFromArguments(args, names, map[], k);
        }
      }
      if forall g :: 0 <= g < |required| ==> GroupPresent(required[g], values) then Success(values)
      else Failure(UsageAndExit)
  }

  /** An argument with no later argument of the same key. */
  predicate LastOfKey(args: seq<string>, i: nat)
    requires i < |args|
  {
    forall j :: i < j < |args| ==> Key(args[j]) != Key(args[i])
  }

  /** Arguments whose keys all differ from `k` leave the value stored under `k`. */
  lemma {:induction false} CollectKeepsOtherKeys(args: seq<string>, names: set<string>, values: map<string, string>, k: string)
    requires Collect(args, names, values).Success? && k in values
    requires forall j :: 0 <= j < |args| ==> Key(args[j]) != k
    ensures Collect(args, names, values).value[k] == values[k]
  {
    if args != [] {
      var v := Unquoted(Value(args[0])).value;
      assert Key(args[0]) != k;
      CollectKeepsOtherKeys(args[1..], names, values[Key(args[0]) := v], k);
    }
  }

  /** A repeated key keeps the (unquoted) value of its last occurrence. */
  lemma {:induction false} LastOccurrenceWins(args: seq<string>, names: set<string>, values: map<string, string>, i: nat)
    requires Collect(args, names, values).Success?
    requires i < |args| && LastOfKey(args, i)
    ensures Key(args[i]) in Collect(args, names, values).value
    ensures Unquoted(Value(args[i])).Success?
    ensures Collect(args, names, values).value[Key(args[i])] == Unquoted(Value(args[i])).value
  {
    var r := Collect(args, names, values);
    assert !BadArgument(args[0], names) && Unquoted(Value(args[0])).Success?;
    var v := Unquoted(Value(args[0])).value;
    var next := values[Key(args[0]) := v];
    assert r == Collect(args[1..], names, next);
    if i == 0 {
      forall j | 0 <= j < |args[1..]|
        ensures Key(args[1..][j]) != Key(args[0])
      {
        assert args[1..][j] == args[j + 1];
      }
      CollectKeepsOtherKeys(args[1..], names, next, Key(args[0]));
    } else {
      assert LastOfKey(args[1..], i - 1) by {
        forall j | i - 1 < j < |args[1..]|
          ensures Key(args[1..][j]) != Key(args[1..][i - 1])
        {
          assert args[1..][j] == args[j + 1];
        }
      }
      LastOccurrenceWins(args[1..], names, next, i - 1);
      assert args[1..][i - 1] == args[i];
    }
  }

  /** In the map `getArgumentValues` returns, a repeated key holds the unquoted value of its last occurrence. */
  lemma ArgumentValuesKeepLastOccurrence(args: seq<string>, required: seq<seq<string>>, optional: seq<seq<string>>, i: nat)
    requires ArgumentValues(args, required, optional).Success?
    requires i < |args| && LastOfKey(args, i)
    ensures Key(args[i]) in ArgumentValues(args, required, optional).value
    ensures Unquoted(Value(args[i])).Success?
    ensures ArgumentValues(args, required, optional).value[Key(args[i])] == Unquoted(Value(args[i])).value
  {
    var names := Names(required) + Names(optional);
    var r := ArgumentValues(args, required, optional);
    assert Collect(args, names, map[]).Success? && r.value == Collect(args, names, map[]).value;
    LastOccurrenceWins(args, names, map[], i);
  }

  /** With every argument good, a missing required group ends in the usage message and exit. */
  lemma MissingGroupExits(args: seq<string>, required: seq<seq<string>>, optional: seq<seq<string>>, g: nat)
    requires Collect(args, Names(required) + Names(optional), map[]).Success?
    requires g < |required|
    requires !GroupPresent(required[g], Collect(args, Names(required) + Names(optional), map[]).value)
    ensures ArgumentValues(args, required, optional) == Failure(UsageAndExit)
  {
  }

  /** The first loop of `getArgumentValues`: the union of the groups' names. */
  method AllowedNames(groups: seq<seq<string>>) returns (names: set<string>)
    ensures names == Names(groups)
  {
    names := {};
    var i := 0;
    while i < |groups|
      invariant 0 <= i <= |groups|
      invariant names == Names(groups[..i])
    {
      assert groups[..i + 1][..i] == groups[..i];
      names := names + set n | n in groups[i];
      i := i + 1;
    }
    assert groups[..i] == groups;
  }

  /** One step of the loop: an argument either ends it with its exception or stores its value. */
  lemma CollectStep(args: seq<string>, i: nat, names: set<string>, values: map<string, string>)
    requires i < |args|
    ensures Rejected(args[i], names) ==>
      Collect(args[i..], names, values) == Failure(ArgumentError(args[i], names).value)
    ensures !Rejected(args[i], names) ==>
      Collect(args[i..], names, values) == Collect(args[i + 1..], names, values[Key(args[i]) := Unquoted(Value(args[i])).value])
  {
    assert args[i..][0] == args[i] && args[i..][1..] == args[i + 1..];
  }

  /** The body of `getArgumentValues`'s argument loop, for the argument `a`. */
  method StoreArgument(a: string, argNames: set<string>, argumentValues: map<string, string>)
    returns (r: Result<map<string, string>>)
    ensures Rejected(a, argNames) ==> r == Failure(ArgumentError(a, argNames).value)
    ensures !Rejected(a, argNames) ==> r == Success(argumentValues[Key(a) := Unquoted(Value(a)).value])
  {
    var key := Key(a);
    var value := Value(a);
    if key == "" || value == "" {
      return Failure(IllegalArgument("Bad argument: " + a));
    }
    if key in argNames {
      if value[0] == '"' && value[|value| - 1] == '"' {
        if |value| == 1 {
          return Failure(StringIndexOutOfBounds);
        }
        r := Success(argumentValues[key := value[1..|value| - 1]]);
      } else {
        r := Success(argumentValues[key := value]);
      }
    } else {
      r := Failure(IllegalArgument("Bad argument: " + a));
    }
  }

  /** The argument loop of `getArgumentValues`. */
  method ReadArguments(args: seq<string>, argNames: set<string>) returns (r: Result<map<string, string>>)
    ensures r == Collect(args, argNames, map[])
  {
    var argumentValues: map<string, string> := map[];
    var i := 0;
    while i < |args|
      invariant 0 <= i <= |args|
      invariant Collect(args[i..], argNames, argumentValues) == Collect(args, argNames, map[])
    {
      CollectStep(args, i, argNames, argumentValues);
      var stored := StoreArgument(args[i], argNames, argumentValues);
      if stored.Failure? {
        return stored;
      }
      argumentValues := stored.value;
      i := i + 1;
    }
    r := Success(argumentValues);
  }

  /** The check of `getArgumentValues` that every required group has a member present. */
  method AllGroupsPresent(requiredArgNames: seq<seq<string>>, argumentValues: map<string, string>) returns (ok: bool)
    ensures ok <==> forall g :: 0 <= g < |requiredArgNames| ==> GroupPresent(requiredArgNames[g], argumentValues)
  {
    var i := 0;
    while i < |requiredArgNames|
      invariant 0 <= i <= |requiredArgNames|
      invariant forall g :: 0 <= g < i ==> GroupPresent(requiredArgNames[g], argumentValues)
    {
      var found := false;
      var j := 0;
      while j < |requiredArgNames[i]|
        invariant 0 <= j <= |requiredArgNames[i]|
        invariant found <==> exists k :: 0 <= k < j && requiredArgNames[i][k] in argumentValues
      {
        if requiredArgNames[i][j] in argumentValues {
          found := true;
        }
        j := j + 1;
      }
      if !found {
        return false;
      }
      i := i + 1;
    }
    ok := true;
  }

  /**
   * `getArgumentValues`: collects the allowed names, reads the arguments in
   * order into a map, then checks each required group.
   */
  method GetArgumentValues(args: seq<string>, requiredArgNames: seq<seq<string>>, optionalArgNames: seq<seq<string>>)
    returns (r: Result<map<string, string>>)
    ensures r == ArgumentValues(args, requiredArgNames, optionalArgNames)
  {
    var requiredNames := AllowedNames(requiredArgNames);
    var optionalNames := AllowedNames(optionalArgNames);
    var argumentValues := ReadArguments(args, requiredNames + optionalNames);
    if argumentValues.Failure? {
      return argumentValues;
    }
    var ok := AllGroupsPresent(requiredArgNames, argumentValues.value);
    if !ok {
      return Failure(UsageAndExit);
    }
    r := argumentValues;
  }
}
