/**
 * The command-line reader of `tasks/lib/args.js`: from the third entry of
 * the argument vector on, `-name value` pairs and bare `-flag`s become a
 * record. The vector is a parameter here instead of the process's own.
 */
module Args {
  import opened Strings
  import opened Json

  /** Length of the run of `-` at the start of `s`. */
  function LeadingDashes(s: string): (n: nat)
    ensures n <= |s|
    ensures forall i | 0 <= i < n :: s[i] == '-'
    ensures n < |s| ==> s[n] != '-'
  {
    if |s| > 0 && s[0] == '-' then 1 + LeadingDashes(s[1..]) else 0
  }

  /** `/^-+\d/`: one or more dashes and then a digit, as the pattern reads. */
  predicate DashesThenDigit(s: string) {
    exists k | 1 <= k < |s| :: (forall j | 0 <= j < k :: s[j] == '-') && IsDigit(s[k])
  }

  /** The pattern can only match with the dashes taken in full. */
  lemma DashesThenDigitAtRun(s: string)
    ensures DashesThenDigit(s) <==> (LeadingDashes(s) > 0 && LeadingDashes(s) < |s| && IsDigit(s[LeadingDashes(s)]))
  {
    var d := LeadingDashes(s);
    if DashesThenDigit(s) {
      var k :| 1 <= k < |s| && (forall j | 0 <= j < k :: s[j] == '-') && IsDigit(s[k]);
      assert forall i | 0 <= i < d :: !IsDigit(s[i]);
    }
    if d > 0 && d < |s| && IsDigit(s[d]) {
      assert (forall j | 0 <= j < d :: s[j] == '-') && IsDigit(s[d]);
    }
  }

  /**
   * `isArgName(str)`: it starts with `-` and is not dashes followed by a
   * digit, so that negative numbers are read as values.
   */
  function IsArgName(s: string): (b: bool)
    ensures b <==> |s| > 0 && s[0] == '-' && !DashesThenDigit(s)
  {
    DashesThenDigitAtRun(s);
    var d := LeadingDashes(s);
    d > 0 && !(d < |s| && IsDigit(s[d]))
  }

  /** `str.replace(/^-+/, '')`. */
  function StripDashes(s: string): (r: string)
    ensures |r| <= |s| && s == s[..|s| - |r|] + r
    ensures forall i | 0 <= i < |s| - |r| :: s[i] == '-'
    ensures r == [] || r[0] != '-'
  {
    s[LeadingDashes(s)..]
  }

  /** `!argv[i]`: past the end, or the empty string. */
  predicate Missing(argv: seq<string>, i: nat) {
    i >= |argv| || argv[i] == []
  }

  /** The loop from index `i` on, with the record built so far; it only ever adds keys. */
  function ParseFrom(argv: seq<string>, i: nat, acc: map<string, Value>): (r: map<string, Value>)
    ensures acc.Keys <= r.Keys
    decreases |argv| - i
  {
    if Missing(argv, i) then acc
    else if IsArgName(argv[i]) then
      if Missing(argv, i + 1) || IsArgName(argv[i + 1]) then
        ParseFrom(argv, i + 1, acc[StripDashes(argv[i]) := Bool(true)])
      else
        ParseFrom(argv, i + 2, acc[StripDashes(argv[i]) := Str(argv[i + 1])])
    else ParseFrom(argv, i + 1, acc)
  }

  /** `get()`: the loop that starts at index 2 and stops at the first empty entry. */
  method Get(argv: seq<string>) returns (args: map<string, Value>)
    ensures args == ParseFrom(argv, 2, map[])
  {
    args := map[];
    var i: nat := 2;
    while i < |argv|
      invariant ParseFrom(argv, i, args) == ParseFrom(argv, 2, map[])
      decreases |argv| - i
    {
      if argv[i] == [] {
        break;
      }
      if IsArgName(argv[i]) {
        if i + 1 >= |argv| || argv[i + 1] == [] || IsArgName(argv[i + 1]) {
          args := args[StripDashes(argv[i]) := Bool(true)];
          i := i + 1;
        } else {
          args := args[StripDashes(argv[i]) := Str(argv[i + 1])];
          i := i + 2;
        }
      } else {
        i := i + 1;
      }
    }
  }

  /** Every key the loop adds is an argument name with its dashes stripped. */
  lemma {:induction false} KeysAreNames(argv: seq<string>, i: nat, acc: map<string, Value>)
    ensures forall k | k in ParseFrom(argv, i, acc) ::
      k in acc || exists j | i <= j < |argv| :: IsArgName(argv[j]) && StripDashes(argv[j]) == k
    decreases |argv| - i
  {
    if !Missing(argv, i) {
      if IsArgName(argv[i]) {
        var k0 := StripDashes(argv[i]);
        if Missing(argv, i + 1) || IsArgName(argv[i + 1]) {
          KeysAreNames(argv, i + 1, acc[k0 := Bool(true)]);
        } else {
          KeysAreNames(argv, i + 2, acc[k0 := Str(argv[i + 1])]);
        }
      } else {
        KeysAreNames(argv, i + 1, acc);
      }
    }
  }

  /**
   * Every value the loop stores is `true` or the entry after a name, which
   * is neither empty nor a name itself.
   */
  lemma {:induction false} ValuesAreFlagsOrValues(argv: seq<string>, i: nat, acc: map<string, Value>)
    requires forall k | k in acc :: acc[k] == Bool(true) || exists j | 1 <= j < |argv| :: acc[k] == Str(argv[j]) && argv[j] != [] && !IsArgName(argv[j])
    ensures forall k | k in ParseFrom(argv, i, acc) ::
      var v := ParseFrom(argv, i, acc)[k];
      v == Bool(true) || exists j | 1 <= j < |argv| :: v == Str(argv[j]) && argv[j] != [] && !IsArgName(argv[j])
    decreases |argv| - i
  {
    if !Missing(argv, i) {
      if IsArgName(argv[i]) {
        var k0 := StripDashes(argv[i]);
        if Missing(argv, i + 1) || IsArgName(argv[i + 1]) {
          ValuesAreFlagsOrValues(argv, i + 1, acc[k0 := Bool(true)]);
        } else {
          var next := acc[k0 := Str(argv[i + 1])];
          assert next[k0] == Str(argv[i + 1]) && argv[i + 1] != [] && !IsArgName(argv[i + 1]);
          ValuesAreFlagsOrValues(argv, i + 2, next);
        }
      } else {
        ValuesAreFlagsOrValues(argv, i + 1, acc);
      }
    }
  }

  /** Nothing after the first empty entry is read: the vector cut there gives the same record. */
  lemma {:induction false} StopsAtEmpty(argv: seq<string>, e: nat, i: nat, acc: map<string, Value>)
    requires i <= e < |argv| && argv[e] == []
    ensures ParseFrom(argv, i, acc) == ParseFrom(argv[..e], i, acc)
    decreases e - i
  {
    var cut := argv[..e];
    if i < e && argv[i] != [] {
      assert cut[i] == argv[i];
      assert Missing(argv, i + 1) <==> Missing(cut, i + 1);
      if IsArgName(argv[i]) {
        var k0 := StripDashes(argv[i]);
        if Missing(argv, i + 1) || IsArgName(argv[i + 1]) {
          StopsAtEmpty(argv, e, i + 1, acc[k0 := Bool(true)]);
        } else {
          assert cut[i + 1] == argv[i + 1];
          StopsAtEmpty(argv, e, i + 2, acc[k0 := Str(argv[i + 1])]);
        }
      } else {
        StopsAtEmpty(argv, e, i + 1, acc);
      }
    }
  }

  /** A negative number after a name is its value; a name followed by a name is a flag. */
  lemma NegativeNumberIsValue()
    ensures ParseFrom(["node", "grunt", "-n", "-5"], 2, map[]) == map["n" := Str("-5")]
    ensures ParseFrom(["node", "grunt", "-v", "-n"], 2, map[]) == map["v" := Bool(true), "n" := Bool(true)]
  {
    assert LeadingDashes("-5") == 1;
    assert LeadingDashes("-n") == 1 && LeadingDashes("-v") == 1;
    assert IsArgName("-n") && IsArgName("-v") && !IsArgName("-5");
    assert StripDashes("-n") == "n" && StripDashes("-v") == "v";
  }
}
