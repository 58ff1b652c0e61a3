/** linux_params_init and linux_env_set of loader/bootm.c: argument and environment strings for the kernel. */
module LinuxParams {
  import opened Folds
  import opened CommandLine

  const LINUX_MAX_ARGS := 256
  const LINUX_MAX_ENVS := 256
  const NUL := '\0'
  /** The bytes of a table of 256 pointers. */
  const TABLE_BYTES := 1024

  // --------------------------------------------------------- strings in memory

  /** Strings one after the other, each with its terminator. */
  function Packed(strings: seq<string>): string {
    if strings == [] then [] else Packed(strings[..|strings| - 1]) + strings[|strings| - 1] + [NUL]
  }

  lemma PackedMore(strings: seq<string>, s: string)
    ensures Packed(strings + [s]) == Packed(strings) + s + [NUL]
  {
    assert (strings + [s])[..|strings|] == strings;
  }

  /** A string that C can hold. */
  predicate Terminable(s: string) {
    forall i :: 0 <= i < |s| ==> s[i] != '\0'
  }

  /** What a C program reads at a: the characters before the first terminator. */
  function ReadString(m: string, a: nat): string
    decreases |m| - a
  {
    if a >= |m| || m[a] == '\0' then [] else [m[a]] + ReadString(m, a + 1)
  }

  lemma {:induction false} ReadStringAt(m: string, a: nat, s: string)
    requires a + |s| < |m| && m[a..a + |s|] == s && m[a + |s|] == NUL && Terminable(s)
    ensures ReadString(m, a) == s
    decreases |s|
  {
    if s != [] {
      assert m[a..a + |s|][0] == s[0];
      assert m[a + 1..a + 1 + |s[1..]|] == s[1..];
      ReadStringAt(m, a + 1, s[1..]);
    }
  }

  /** Where each string of a packed area starts, and that it reads back. */
  lemma {:induction false} PackedReads(m: string, a: nat, strings: seq<string>, i: nat)
    requires i < |strings| && (forall j :: 0 <= j < |strings| ==> Terminable(strings[j]))
    requires a + |Packed(strings)| <= |m| && m[a..a + |Packed(strings)|] == Packed(strings)
    ensures ReadString(m, a + |Packed(strings[..i])|) == strings[i]
    decreases |strings|
  {
    var n := |strings| - 1;
    var before, last := strings[..n], strings[n];
    var p := |Packed(before)|;
    var all := Packed(strings);
    assert all == Packed(before) + last + [NUL];
    AreaPrefix(m, a, Packed(before), last);
    if i == n {
      ReadStringAt(m, a + p, last);
    } else {
      PackedReads(m, a, before, i);
      assert before[..i] == strings[..i];
    }
  }

  lemma AreaPrefix(m: string, a: nat, p: string, s: string)
    requires a + |p| + |s| + 1 <= |m| && m[a..a + |p| + |s| + 1] == p + s + [NUL]
    ensures m[a..a + |p|] == p && m[a + |p|..a + |p| + |s|] == s && m[a + |p| + |s|] == NUL
  {
    var all := p + s + [NUL];
    forall i | 0 <= i < |all|
      ensures m[a + i] == all[i]
    {
      assert m[a..a + |p| + |s| + 1][i] == all[i];
    }
    assert forall i :: 0 <= i < |p| ==> all[i] == p[i];
    assert forall i :: 0 <= i < |s| ==> m[a + (|p| + i)] == all[|p| + i] == s[i];
    assert m[a + (|p| + |s|)] == all[|p| + |s|];
  }

  // -------------------------------------------------------------- the C library

  /** strchr: the first such character from `from` on, or -1. */
  function Strchr(line: string, from: nat, c: char): (r: int)
    requires from <= |line|
    ensures r == -1 || from <= r < |line|
    ensures r == -1 ==> forall j :: from <= j < |line| ==> line[j] != c
    ensures r != -1 ==> line[r] == c && forall j :: from <= j < r ==> line[j] != c
    decreases |line| - from
  {
    if from == |line| then -1 else if line[from] == c then from else Strchr(line, from + 1, c)
  }

  // ----------------------------------------------------------- finding a blank

  /** Nothing from `line` to p ends the argument, quotes before p pair up, and the two searches start at p. */
  ghost predicate Hopping(text: string, at: nat, p: nat, quote: int, next: int) {
    && at <= p <= |text|
    && Closed(text, p)
    && (forall j :: at <= j < p ==> !Splits(text, j))
    && quote == Strchr(text, p, QUOTE)
    && next == Strchr(text, p, BLANK)
  }

  /** No blank ends the argument before the quote after the next one. */
  lemma HopOver(text: string, at: nat, p: nat, open: nat, close: nat)
    requires at <= p <= open < close <= |text| && Closed(text, p) && text[open] == QUOTE
    requires forall j :: p <= j < open ==> text[j] != QUOTE && text[j] != BLANK
    requires forall j :: open < j < close ==> text[j] != QUOTE
    requires forall j :: at <= j < p ==> !Splits(text, j)
    ensures forall j :: at <= j < close ==> !Splits(text, j)
    ensures close < |text| && text[close] == QUOTE ==> Closed(text, close + 1) && !Splits(text, close)
  {
    NoQuotesBetween(text, p, open);
    forall j | open < j <= close
      ensures Quotes(text, j) == Quotes(text, open) + 1
    {
      NoQuotesBetween(text, open + 1, j);
    }
  }

  /** The blank found is the one that ends the argument. */
  lemma Arrived(text: string, at: nat, p: nat, quote: int, next: int)
    requires Hopping(text, at, p, quote, next) && (next == -1 || quote == -1 || quote > next)
    ensures Cut(text, at) == if next == -1 then |text| else next
  {
    var c := if next == -1 then |text| else next;
    if next != -1 {
      NoQuotesBetween(text, p, c);
    }
    CutIsFirst(text, at, c);
  }

  /** From a quote before the next blank to the quote after it: the argument goes on behind that, or to the end. */
  lemma HopOnce(text: string, at: nat, p: nat, quote: int, next: int)
    requires Hopping(text, at, p, quote, next) && next != -1 && quote != -1 && quote < next
    ensures var close := Strchr(text, quote + 1, QUOTE);
      if close == -1 then Cut(text, at) == |text|
      else Hopping(text, at, close + 1, Strchr(text, close + 1, QUOTE), Strchr(text, close + 1, BLANK))
  {
    var close := Strchr(text, quote + 1, QUOTE);
    if close == -1 {
      HopOver(text, at, p, quote, |text|);
      CutIsFirst(text, at, |text|);
    } else {
      HopOver(text, at, p, quote, close);
    }
  }

  /** The inner loop: hop over quoted parts to the blank that ends the argument. */
  method FindEnd(text: string, at: nat) returns (next: int)
    requires at < |text| && Closed(text, at)
    ensures next == -1 ==> Cut(text, at) == |text|
    ensures next != -1 ==> Cut(text, at) == next < |text|
  {
    var quote := Strchr(text, at, QUOTE);
    next := Strchr(text, at, BLANK);
    ghost var p := at;
    while next != -1 && quote != -1 && quote < next
      invariant Hopping(text, at, p, quote, next)
      decreases |text| - p
    {
      HopOnce(text, at, p, quote, next);
      next := Strchr(text, quote + 1, QUOTE);
      if next == -1 {
        return;
      }
      p := next + 1;
      quote := Strchr(text, next + 1, QUOTE);
      next := Strchr(text, next + 1, BLANK);
    }
    Arrived(text, at, p, quote, next);
  }

  // ------------------------------------------------------------- the program

  /** The line from the environment, or none. */
  datatype CommandLineArg = Null | Line(text: string)

  /** The arguments that are passed on: there is room for 255. */
  function Passed(line: CommandLineArg): (args: seq<string>) {
    match line
    case Null => []
    case Line(text) => Cropped(Args(text, 0), LINUX_MAX_ARGS - 1)
  }

  /** All arguments if there are at most 255, and otherwise the first 255; none without a line. */
  lemma PassedMeans(text: string)
    ensures Passed(Null) == []
    ensures Passed(Line(text)) == if |Args(text, 0)| <= 255 then Args(text, 0) else Args(text, 0)[..255]
  {}

  lemma OneSplitOff(text: string, at: nat, args: seq<string>)
    requires at < |text| && Args(text, 0) == args + Args(text, at)
    ensures Args(text, 0) == (args + [text[at..Cut(text, at)]]) + Args(text, Past(text, Cut(text, at)))
  {}

  lemma AllSplitOff(text: string, at: nat, args: seq<string>)
    requires at <= |text| && Args(text, 0) == args + Args(text, at)
    requires |args| <= LINUX_MAX_ARGS - 1 && (at == |text| || |args| == LINUX_MAX_ARGS - 1)
    ensures args == Passed(Line(text))
  {}

  /** Pointers from entry `first` on are the addresses of packed strings in an area that starts at a. */
  ghost predicate Points(table: seq<nat>, first: nat, strings: seq<string>, a: nat) {
    first + |strings| <= |table| && forall i :: 0 <= i < |strings| ==> table[first + i] == a + |Packed(strings[..i])|
  }

  lemma PointsMore(table: seq<nat>, first: nat, strings: seq<string>, a: nat, s: string)
    requires Points(table, first, strings, a) && first + |strings| < |table|
    ensures Points(table[first + |strings| := a + |Packed(strings)|], first, strings + [s], a)
  {
    forall i | 0 <= i <= |strings|
      ensures (strings + [s])[..i] == strings[..i]
    {}
  }

  /** The packed strings fill memory from a up to b. */
  ghost predicate Area(m: string, a: nat, b: nat, strings: seq<string>) {
    a <= b <= |m| && m[a..b] == Packed(strings)
  }

  /** The parameter block; pointers are addresses in `mem`, and 0 is the null pointer. */
  class Params {
    const mem: array<char>
    const argv: array<nat>
    const env: array<nat>
    var argc: nat
    /** The end of the argument strings, where the environment table is, and where its next string goes. */
    var argp: nat
    var envTable: nat
    var envP: nat
    var envIdx: nat

    ghost predicate Valid() {
      argv.Length == 256 && env.Length == 256 && argv != env
    }

    /** The block at `start` passes these arguments. */
    ghost predicate HasArgs(start: nat, args: seq<string>)
      reads this, mem, argv
    {
      && Valid()
      && argc == 1 + |args| <= 256
      && argv[0] == 0
      && Points(argv[..], 1, args, start + 1024)
      && Area(mem[..], start + 1024, argp, args)
    }

    /** The environment table, behind the arguments, holds these settings and a null pointer after them. */
    ghost predicate HasEnv(settings: seq<string>)
      reads this, mem, env
    {
      && Valid()
      && argp <= envTable < argp + 16 && envTable % 16 == 0
      && envIdx == |settings| < 256
      && env[envIdx] == 0
      && Points(env[..], 0, settings, envTable + 1024)
      && Area(mem[..], envTable + 1024, envP, settings)
    }

    constructor (size: nat)
      ensures Valid() && mem.Length == size && fresh(mem) && fresh(argv) && fresh(env)
    {
      mem := new char[size];
      argv := new nat[LINUX_MAX_ARGS];
      env := new nat[LINUX_MAX_ENVS];
      argc, argp, envTable, envP, envIdx := 0, 0, 0, 0, 0;
    }

    /** memcpy, without the terminator. */
    method Copy(a: nat, s: string)
      requires a + |s| <= mem.Length
      modifies mem
      ensures mem[..] == old(mem[..a]) + s + old(mem[a + |s|..])
    {
      var i := 0;
      while i < |s|
        invariant 0 <= i <= |s|
        invariant mem[..] == old(mem[..a]) + s[..i] + old(mem[a + i..])
      {
        mem[a + i] := s[i];
        i := i + 1;
      }
      assert s[..i] == s;
    }

    /** Append a string and its terminator to a packed area. */
    method Append(from: nat, a: nat, s: string, ghost strings: seq<string>)
      requires Area(mem[..], from, a, strings) && a + |s| < mem.Length
      modifies mem
      ensures mem[..a] == old(mem[..a]) && Area(mem[..], from, a + |s| + 1, strings + [s])
    {
      Copy(a, s);
      mem[a + |s|] := NUL;
      PackedMore(strings, s);
      assert mem[from..a] == old(mem[from..a]);
      assert mem[from..a + |s| + 1] == mem[from..a] + s + [NUL];
    }

    /** linux_params_init: split the line and lay the arguments out behind the pointer table. */
    method LinuxParamsInit(start: nat, line: CommandLineArg)
      requires Valid()
      requires start + 2 * TABLE_BYTES + (if line.Line? then |line.text| else 0) + 17 <= mem.Length
      modifies this`argc, this`argp, this`envTable, this`envP, this`envIdx, mem, argv, env
      ensures HasArgs(start, Passed(line)) && HasEnv([])
    {
      argc := 1;
      argv[0] := 0;
      argp := start + TABLE_BYTES;
      if line.Line? {
        SplitLine(start, line.text);
      }
      EmptyEnvironment(start, Passed(line));
    }

    /** The environment table starts at the next multiple of 16. */
    method EmptyEnvironment(ghost start: nat, ghost args: seq<string>)
      requires HasArgs(start, args) && argp + 16 + TABLE_BYTES <= mem.Length
      modifies this`envTable, this`envP, this`envIdx, env
      ensures HasArgs(start, args) && HasEnv([])
    {
      envTable := (argp + 15) / 16 * 16;
      env[0] := 0;
      envP := envTable + TABLE_BYTES;
      envIdx := 0;
    }

    /** The outer loop: one argument after the other, while there is room in the table. */
    method SplitLine(start: nat, text: string)
      requires HasArgs(start, []) && argp == start + TABLE_BYTES
      requires argp + |text| + 1 <= mem.Length
      modifies this`argc, this`argp, mem, argv
      ensures HasArgs(start, Passed(Line(text)))
      ensures argp <= start + TABLE_BYTES + |text| + 1
    {
      var at := 0;
      ghost var args: seq<string> := [];
      while at < |text| && argc < LINUX_MAX_ARGS
        invariant 0 <= at <= |text| && (at < |text| ==> Closed(text, at))
        invariant HasArgs(start, args) && Args(text, 0) == args + Args(text, at)
        invariant argp <= start + TABLE_BYTES + at + (if at == |text| then 1 else 0)
        decreases |text| - at
      {
        ghost var arg := text[at..Cut(text, at)];
        OneSplitOff(text, at, args);
        at := NextArg(start, text, at, args);
        args := args + [arg];
      }
      AllSplitOff(text, at, args);
    }

    /** One pass of the outer loop: copy an argument and step past it. */
    method NextArg(start: nat, text: string, at: nat, ghost args: seq<string>) returns (after: nat)
      requires HasArgs(start, args) && argc < LINUX_MAX_ARGS
      requires at < |text| && Closed(text, at) && argp + (|text| - at) + 1 <= mem.Length
      modifies this`argc, this`argp, mem, argv
      ensures after == Past(text, Cut(text, at)) && at < after && (after < |text| ==> Closed(text, after))
      ensures HasArgs(start, args + [text[at..Cut(text, at)]])
      ensures argp == old(argp) + (Cut(text, at) - at) + 1
    {
      var next := FindEnd(text, at);
      if next == -1 {
        next := |text|;
      }
      assert next == Cut(text, at);
      Enter(start, text[at..next], args);
      after := next;
      if next < |text| {
        ClosedPast(text, next);
        after := next + 1;
      }
    }

    /** Put an argument in the table and in memory. */
    method Enter(start: nat, arg: string, ghost args: seq<string>)
      requires HasArgs(start, args) && argc < LINUX_MAX_ARGS && argp + |arg| + 1 <= mem.Length
      modifies this`argc, this`argp, mem, argv
      ensures HasArgs(start, args + [arg]) && argp == old(argp) + |arg| + 1
    {
      argv[argc] := argp;
      PointsMore(old(argv[..]), 1, args, start + TABLE_BYTES, arg);
      Append(start + TABLE_BYTES, argp, arg, args);
      argp := argp + |arg| + 1;
      argc := argc + 1;
    }

    /** linux_env_set: append name=value, if the table has room for it. */
    method LinuxEnvSet(name: string, value: string, ghost start: nat, ghost args: seq<string>, ghost settings: seq<string>)
      requires HasArgs(start, args) && HasEnv(settings)
      requires envP + |name| + |value| + 2 <= mem.Length
      modifies this`envP, this`envIdx, mem, env
      ensures HasArgs(start, args)
      ensures HasEnv(if |settings| < 255 then settings + [name + "=" + value] else settings)
      ensures envP == if |settings| < 255 then old(envP) + |name| + |value| + 2 else old(envP)
    {
      if envIdx < LINUX_MAX_ENVS - 1 {
        Append(envTable + TABLE_BYTES, envP, Setting(name, value), settings);
        KeepsArea(old(mem[..]), mem[..], start + TABLE_BYTES, argp, args, envP);
        EnterSetting(Setting(name, value), settings);
      }
    }

    /** A string that has been appended goes into the table, and a null pointer behind it. */
    method EnterSetting(s: string, ghost settings: seq<string>)
      requires Valid() && envIdx == |settings| < LINUX_MAX_ENVS - 1
      requires argp <= envTable < argp + 16 && envTable % 16 == 0
      requires Points(env[..], 0, settings, envTable + TABLE_BYTES)
      requires envP == envTable + TABLE_BYTES + |Packed(settings)|
      requires Area(mem[..], envTable + TABLE_BYTES, envP + |s| + 1, settings + [s])
      modifies this`envP, this`envIdx, env
      ensures HasEnv(settings + [s]) && envP == old(envP) + |s| + 1
    {
      PointsMore(env[..], 0, settings, envTable + TABLE_BYTES, s);
      env[envIdx] := envP;
      envP := envP + |s| + 1;
      envIdx := envIdx + 1;
      env[envIdx] := 0;
    }
  }

  function Setting(name: string, value: string): string {
    name + "=" + value
  }

  lemma KeepsArea(m: string, n: string, a: nat, b: nat, strings: seq<string>, c: nat)
    requires Area(m, a, b, strings) && b <= c <= |m| && c <= |n| && m[..c] == n[..c]
    ensures Area(n, a, b, strings)
  {
    assert m[a..b] == m[..c][a..b] == n[..c][a..b] == n[a..b];
  }

  /** What the kernel reads at a pointer of a table is the string that was put there. */
  lemma PointerReads(m: string, a: nat, b: nat, table: seq<nat>, first: nat, strings: seq<string>, i: nat)
    requires Points(table, first, strings, a) && Area(m, a, b, strings) && i < |strings|
    requires forall j :: 0 <= j < |strings| ==> Terminable(strings[j])
    ensures ReadString(m, table[first + i]) == strings[i]
  {
    PackedReads(m, a, strings, i);
  }

  /** Arguments of a line that C can hold can be held too. */
  lemma {:induction false} ArgsTerminable(text: string, k: nat, i: nat)
    requires k <= |text| && Terminable(text) && i < |Args(text, k)|
    ensures Terminable(Args(text, k)[i])
    decreases i
  {
    if i > 0 {
      ArgsTerminable(text, Past(text, Cut(text, k)), i - 1);
    }
  }
}
