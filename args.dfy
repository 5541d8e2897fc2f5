/** `parseArgs` of src/common.mjs and the argument check of
    `handleWifiUpload` in src/upload-wifi.mjs. */
module Args {
  import opened Wrappers

  /** The options record; a field that is absent or `undefined` is `None`. */
  datatype Options = Options(program: Option<string>, wiFiUpload: bool, ip: Option<string>, code: Option<string>)

  /** The empty record `{}`. */
  const NoOptions := Options(None, false, None, None)

  const PROGRAM_PREFIX: string := "--program="
  const WIFI_PREFIX: string := "--wifi"
  const IP_PREFIX: string := "--ip"
  const CODE_PREFIX: string := "--code"

  /** `s.startsWith(prefix)`. */
  predicate StartsWith(s: string, prefix: string)
  {
    |prefix| <= |s| && s[..|prefix|] == prefix
  }

  /** The index of the first `c` in `s`. */
  function FirstIndex(s: string, c: char): (r: Option<nat>)
    ensures r.None? <==> c !in s
    ensures r.Some? ==> r.value < |s| && s[r.value] == c && c !in s[..r.value]
  {
    if |s| == 0 then None
    else if s[0] == c then Some(0)
    else match FirstIndex(s[1..], c)
      case None => None
      case Some(i) =>
        assert s[..i + 1] == [s[0]] + s[1..][..i];
        Some(i + 1)
  }

  /** The text of `s` before its first `c`, or all of `s`. */
  function UpTo(s: string, c: char): (r: string)
    ensures c !in r && StartsWith(s, r)
    ensures |r| < |s| ==> s[|r|] == c
  {
    match FirstIndex(s, c)
    case None => s
    case Some(i) => s[..i]
  }

  /** `s.split("=")[1]`: the text between the first `=` and the next one
      (or the end), and `undefined` when `s` has no `=`. */
  function SplitSecond(s: string): (r: Option<string>)
    ensures r.None? <==> '=' !in s
  {
    match FirstIndex(s, '=')
    case None => None
    case Some(i) => Some(UpTo(s[i + 1..], '='))
  }

  /** Split round trip: `key=value`, optionally followed by `=...`, gives
      back `value` whenever neither `key` nor `value` holds an `=`. */
  lemma SplitSecondOfKeyValue(key: string, value: string, rest: string)
    requires '=' !in key && '=' !in value
    requires rest == [] || rest[0] == '='
    ensures SplitSecond(key + "=" + value + rest) == Some(value)
  {
    var s := key + "=" + value + rest;
    assert s[|key|] == '=';
    assert s[..|key|] == key;
    var i := FirstIndex(s, '=').value;
    assert i == |key|;
    var t := s[i + 1..];
    assert t == value + rest;
    assert t[..|value|] == value;
  }

  /** Reference for the last-one-wins fields: the value the LAST argument
      starting with `prefix` gives, `None` when no argument does. */
  function LastValue(args: seq<string>, prefix: string): Option<string>
  {
    if |args| == 0 then None
    else if StartsWith(args[|args| - 1], prefix) then SplitSecond(args[|args| - 1])
    else LastValue(args[..|args| - 1], prefix)
  }

  /** Some argument starts with `prefix`. */
  predicate AnyStartsWith(args: seq<string>, prefix: string)
  {
    exists j :: 0 <= j < |args| && StartsWith(args[j], prefix)
  }

  /** What `parseArgs(args)` returns, field by field. */
  function Parsed(args: seq<string>): Options
  {
    Options(LastValue(args, PROGRAM_PREFIX), AnyStartsWith(args, WIFI_PREFIX),
            LastValue(args, IP_PREFIX), LastValue(args, CODE_PREFIX))
  }

  /** `parseArgs(args)`: one pass from left to right, each argument setting
      the fields whose prefix it starts with. */
  method ParseArgs(args: seq<string>) returns (options: Options)
    ensures options == Parsed(args)
  {
    options := NoOptions;
    for i := 0 to |args|
      invariant options == Parsed(args[..i])
    {
      var arg := args[i];
      assert args[..i + 1][..i] == args[..i];
      if StartsWith(arg, PROGRAM_PREFIX) {
        options := options.(program := SplitSecond(arg));
      }
      if StartsWith(arg, WIFI_PREFIX) {
        options := options.(wiFiUpload := true);
      }
      if StartsWith(arg, IP_PREFIX) {
        options := options.(ip := SplitSecond(arg));
      }
      if StartsWith(arg, CODE_PREFIX) {
        options := options.(code := SplitSecond(arg));
      }
      assert AnyStartsWith(args[..i + 1], WIFI_PREFIX)
             <==> AnyStartsWith(args[..i], WIFI_PREFIX) || StartsWith(arg, WIFI_PREFIX) by {
        if StartsWith(arg, WIFI_PREFIX) {
          assert args[..i + 1][i] == arg;
        }
        if AnyStartsWith(args[..i + 1], WIFI_PREFIX) && !StartsWith(arg, WIFI_PREFIX) {
          var j :| 0 <= j < i + 1 && StartsWith(args[..i + 1][j], WIFI_PREFIX);
          assert args[..i][j] == args[..i + 1][j];
        }
      }
    }
    assert args[..|args|] == args;
  }

  /** The field a later matching argument sets overrides any earlier one,
      and one without `=` resets it to `undefined`. */
  lemma {:induction false} LastValueIsLastMatch(args: seq<string>, prefix: string, j: nat)
    requires j < |args| && StartsWith(args[j], prefix)
    requires forall k :: j < k < |args| ==> !StartsWith(args[k], prefix)
    ensures LastValue(args, prefix) == SplitSecond(args[j])
    decreases |args|
  {
    if j < |args| - 1 {
      var init := args[..|args| - 1];
      assert forall k :: j < k < |init| ==> init[k] == args[k];
      LastValueIsLastMatch(init, prefix, j);
    }
  }

  /** With no argument starting with `prefix`, the field stays absent. */
  lemma {:induction false} LastValueNoMatch(args: seq<string>, prefix: string)
    requires forall k :: 0 <= k < |args| ==> !StartsWith(args[k], prefix)
    ensures LastValue(args, prefix) == None
    decreases |args|
  {
    if |args| > 0 {
      var init := args[..|args| - 1];
      assert forall k :: 0 <= k < |init| ==> init[k] == args[k];
      LastValueNoMatch(init, prefix);
    }
  }

  /** No argument starts with two of the four prefixes. */
  lemma PrefixesDisjoint(arg: string)
    ensures !(StartsWith(arg, PROGRAM_PREFIX) && StartsWith(arg, WIFI_PREFIX))
    ensures !(StartsWith(arg, PROGRAM_PREFIX) && StartsWith(arg, IP_PREFIX))
    ensures !(StartsWith(arg, PROGRAM_PREFIX) && StartsWith(arg, CODE_PREFIX))
    ensures !(StartsWith(arg, WIFI_PREFIX) && StartsWith(arg, IP_PREFIX))
    ensures !(StartsWith(arg, WIFI_PREFIX) && StartsWith(arg, CODE_PREFIX))
    ensures !(StartsWith(arg, IP_PREFIX) && StartsWith(arg, CODE_PREFIX))
  {
    if |arg| >= 3 {
      assert PROGRAM_PREFIX[2] == 'p' && WIFI_PREFIX[2] == 'w';
      assert IP_PREFIX[2] == 'i' && CODE_PREFIX[2] == 'c';
    }
  }

  /** An argument changes at most one field: the one its prefix names. */
  lemma EachArgSetsOneKey(args: seq<string>, arg: string)
    ensures var before, after := Parsed(args), Parsed(args + [arg]);
      && (StartsWith(arg, PROGRAM_PREFIX) ==> after == before.(program := SplitSecond(arg)))
      && (StartsWith(arg, WIFI_PREFIX) ==> after == before.(wiFiUpload := true))
      && (StartsWith(arg, IP_PREFIX) ==> after == before.(ip := SplitSecond(arg)))
      && (StartsWith(arg, CODE_PREFIX) ==> after == before.(code := SplitSecond(arg)))
      && ((!StartsWith(arg, PROGRAM_PREFIX) && !StartsWith(arg, WIFI_PREFIX)
           && !StartsWith(arg, IP_PREFIX) && !StartsWith(arg, CODE_PREFIX)) ==> after == before)
  {
    PrefixesDisjoint(arg);
    var all := args + [arg];
    assert all[..|all| - 1] == args;
    assert AnyStartsWith(all, WIFI_PREFIX) <==> AnyStartsWith(args, WIFI_PREFIX) || StartsWith(arg, WIFI_PREFIX) by {
      if AnyStartsWith(args, WIFI_PREFIX) {
        var j :| 0 <= j < |args| && StartsWith(args[j], WIFI_PREFIX);
        assert all[j] == args[j];
      }
      if StartsWith(arg, WIFI_PREFIX) {
        assert all[|args|] == arg;
      }
      if AnyStartsWith(all, WIFI_PREFIX) && !StartsWith(arg, WIFI_PREFIX) {
        var j :| 0 <= j < |all| && StartsWith(all[j], WIFI_PREFIX);
        assert args[j] == all[j];
      }
    }
  }

  /** Any argument beginning `--wifi` turns the upload on, whatever follows. */
  lemma WifiFlagAnySuffix(args: seq<string>, suffix: string)
    ensures Parsed(args + [WIFI_PREFIX + suffix]).wiFiUpload
  {
    var all := args + [WIFI_PREFIX + suffix];
    assert StartsWith(all[|args|], WIFI_PREFIX) by {
      assert all[|args|][..|WIFI_PREFIX|] == WIFI_PREFIX;
    }
  }

  /** A value counts as given when it is present and not the empty string. */
  predicate Given(v: Option<string>)
  {
    v.Some? && |v.value| > 0
  }

  datatype ArgError = MissingArguments

  /** The check at the head of `handleWifiUpload(args)`. */
  method HandleWifiUpload(args: seq<string>) returns (r: Result<Options, ArgError>)
    ensures r.Ok? <==> (var o := Parsed(args); o.wiFiUpload && Given(o.program) && Given(o.ip) && Given(o.code))
    ensures r.Ok? ==> r.value == Parsed(args)
  {
    var opts := ParseArgs(args);
    if !opts.wiFiUpload || !Given(opts.program) || !Given(opts.ip) || !Given(opts.code) {
      return Err(MissingArguments);
    }
    return Ok(opts);
  }

  /** `--ip=` gives the empty address, which the check treats as missing;
      `--ip` without `=` leaves it `undefined`, also missing. */
  lemma EmptyIpRejected(program: string, code: string, ipArg: string)
    requires ipArg == "--ip=" || ipArg == "--ip"
    ensures !Given(Parsed(["--wifi", PROGRAM_PREFIX + program, "--code=" + code, ipArg]).ip)
  {
    var args := ["--wifi", PROGRAM_PREFIX + program, "--code=" + code, ipArg];
    assert StartsWith(args[3], IP_PREFIX);
    if ipArg == "--ip=" {
      SplitSecondOfKeyValue("--ip", "", "");
      assert "--ip" + "=" + "" + "" == ipArg;
    }
  }

  /** A complete command line is accepted, with the values it spells out. */
  lemma FullCommandLineAccepted(program: string, ip: string, code: string)
    requires '=' !in program && '=' !in ip && '=' !in code
    requires |program| > 0 && |ip| > 0 && |code| > 0
    ensures var o := Parsed(["--wifi", PROGRAM_PREFIX + program, "--ip=" + ip, "--code=" + code]);
      o == Options(Some(program), true, Some(ip), Some(code))
  {
    var args := ["--wifi", PROGRAM_PREFIX + program, "--ip=" + ip, "--code=" + code];
    assert StartsWith(args[0], WIFI_PREFIX);
    assert StartsWith(args[1], PROGRAM_PREFIX) by { assert args[1][..|PROGRAM_PREFIX|] == PROGRAM_PREFIX; }
    assert StartsWith(args[2], IP_PREFIX) by { assert args[2][..|IP_PREFIX|] == IP_PREFIX; }
    assert StartsWith(args[3], CODE_PREFIX) by { assert args[3][..|CODE_PREFIX|] == CODE_PREFIX; }
    PrefixesDisjoint(args[2]);
    PrefixesDisjoint(args[3]);
    assert LastValue(args, PROGRAM_PREFIX) == Some(program) by {
      SplitSecondOfKeyValue("--program", program, "");
      assert "--program" + "=" + program + "" == args[1];
      LastValueIsLastMatch(args, PROGRAM_PREFIX, 1);
    }
    assert LastValue(args, IP_PREFIX) == Some(ip) by {
      SplitSecondOfKeyValue("--ip", ip, "");
      assert "--ip" + "=" + ip + "" == args[2];
      LastValueIsLastMatch(args, IP_PREFIX, 2);
    }
    assert LastValue(args, CODE_PREFIX) == Some(code) by {
      SplitSecondOfKeyValue("--code", code, "");
      assert "--code" + "=" + code + "" == args[3];
      LastValueIsLastMatch(args, CODE_PREFIX, 3);
    }
  }
}
