/** Splitting a kernel command line at blanks outside quotes, as loader/bootm.c does: what the split is. */
module CommandLine {
  const QUOTE := '"'
  const BLANK := ' '

  /** Quotes among the first k characters. */
  function Quotes(line: string, k: nat): nat
    requires k <= |line|
  {
    if k == 0 then 0 else Quotes(line, k - 1) + if line[k - 1] == QUOTE then 1 else 0
  }

  /** Quotes before position k pair up. */
  predicate Closed(line: string, k: nat)
    requires k <= |line|
  {
    Quotes(line, k) % 2 == 0
  }

  /** A blank with an even number of quotes before it ends an argument. */
  predicate Splits(line: string, k: nat)
    requires k < |line|
  {
    line[k] == BLANK && Closed(line, k)
  }

  /** The first such blank from k on, or the end of the line. */
  function Cut(line: string, k: nat): (c: nat)
    requires k <= |line|
    ensures k <= c <= |line|
    ensures forall j :: k <= j < c ==> !Splits(line, j)
    ensures c < |line| ==> Splits(line, c)
    decreases |line| - k
  {
    if k == |line| || Splits(line, k) then k else Cut(line, k + 1)
  }

  lemma {:induction false} CutIsFirst(line: string, k: nat, c: nat)
    requires k <= c <= |line|
    requires forall j :: k <= j < c ==> !Splits(line, j)
    requires c < |line| ==> Splits(line, c)
    ensures Cut(line, k) == c
    decreases c - k
  {
    if k < c {
      CutIsFirst(line, k + 1, c);
    }
  }

  /** Where the argument after the one that ends at c starts. */
  function Past(line: string, c: nat): nat {
    if c < |line| then c + 1 else c
  }

  /** The arguments from position k on. */
  function Args(line: string, k: nat): seq<string>
    requires k <= |line|
    decreases |line| - k
  {
    if k == |line| then []
    else [line[k..Cut(line, k)]] + Args(line, Past(line, Cut(line, k)))
  }

  // ------------------------------------------------------------ counting quotes

  /** The positions of quotes among the first k characters. */
  function QuotesBefore(line: string, k: nat): set<nat>
    requires k <= |line|
  {
    set j | 0 <= j < k && line[j] == '"'
  }

  lemma {:induction false} QuotesAreCounted(line: string, k: nat)
    requires k <= |line|
    ensures Quotes(line, k) == |QuotesBefore(line, k)|
    decreases k
  {
    if k == 0 {
      assert QuotesBefore(line, k) == {};
    } else {
      QuotesAreCounted(line, k - 1);
      if line[k - 1] == '"' {
        assert QuotesBefore(line, k) == QuotesBefore(line, k - 1) + {k - 1};
      } else {
        assert QuotesBefore(line, k) == QuotesBefore(line, k - 1);
      }
    }
  }

  /** Stretches without quotes do not change the count. */
  lemma {:induction false} NoQuotesBetween(line: string, i: nat, k: nat)
    requires i <= k <= |line| && forall j :: i <= j < k ==> line[j] != QUOTE
    ensures Quotes(line, k) == Quotes(line, i)
    decreases k - i
  {
    if i < k {
      NoQuotesBetween(line, i, k - 1);
    }
  }

  /** Counting in a part of the line. */
  lemma {:induction false} QuotesInPart(line: string, i: nat, j: nat, k: nat)
    requires i <= i + k <= j <= |line|
    ensures Quotes(line, i + k) == Quotes(line, i) + Quotes(line[i..j], k)
    decreases k
  {
    if k > 0 {
      QuotesInPart(line, i, j, k - 1);
    }
  }

  // ------------------------------------------------------- what the split is

  function Join(args: seq<string>): string {
    if args == [] then [] else if |args| == 1 then args[0] else args[0] + [BLANK] + Join(args[1..])
  }

  /** Every blank inside the argument is within quotes. */
  predicate Unbroken(arg: string) {
    forall k :: 0 <= k < |arg| ==> !Splits(arg, k)
  }

  predicate Balanced(arg: string) {
    Closed(arg, |arg|)
  }

  /**
    The line is these arguments joined with blanks, up to one blank at the end;
    none can be split further, and only the last may leave a quote open.
   */
  ghost predicate Spells(args: seq<string>, line: string) {
    && (forall i :: 0 <= i < |args| ==> Unbroken(args[i]))
    && (forall i :: 0 <= i < |args| - 1 ==> Balanced(args[i]))
    && (if args == [] then line == []
        else
          var last := args[|args| - 1];
          (line == Join(args) && last != []) || (line == Join(args) + [BLANK] && Balanced(last)))
  }

  lemma SpellsOne(a: string, line: string)
    ensures Spells([a], line) <==>
              Unbroken(a) && ((line == a && a != []) || (line == a + [BLANK] && Balanced(a)))
  {
    assert Join([a]) == a;
  }

  lemma SpellsMore(a: string, rest: seq<string>, line: string)
    requires rest != []
    ensures Spells([a] + rest, a + [BLANK] + line) <==> Unbroken(a) && Balanced(a) && Spells(rest, line)
  {
    var args := [a] + rest;
    assert args[1..] == rest;
    assert args[|args| - 1] == rest[|rest| - 1];
    assert forall i :: 0 <= i < |rest| ==> args[i + 1] == rest[i];
    var tail := Join(rest);
    assert Join(args) == a + [BLANK] + tail;
    assert a + [BLANK] + tail + [BLANK] == a + [BLANK] + (tail + [BLANK]);
    SameTail(a + [BLANK], line, tail);
    SameTail(a + [BLANK], line, tail + [BLANK]);
    if Spells(args, a + [BLANK] + line) {
      forall i | 0 <= i < |rest|
        ensures Unbroken(rest[i]) && (i < |rest| - 1 ==> Balanced(rest[i]))
      {
        assert Unbroken(args[i + 1]);
      }
    }
  }

  lemma SameTail(a: string, s: string, t: string)
    ensures a + s == a + t <==> s == t
  {
    if a + s == a + t {
      assert s == (a + s)[|a|..] && t == (a + t)[|a|..];
    }
  }

  /** The same, argument by argument. */
  ghost predicate Chain(args: seq<string>, line: string)
    decreases |args|
  {
    if args == [] then line == []
    else
      var a := args[0];
      Unbroken(a) && ((|args| == 1 && line == a && a != []) || (Leads(a, line) && Balanced(a) && Chain(args[1..], After(a, line))))
  }

  /** The line starts with the argument and a blank. */
  predicate Leads(a: string, line: string) {
    |a| < |line| && line[..|a|] == a && line[|a|] == BLANK
  }

  function After(a: string, line: string): string
    requires Leads(a, line)
  {
    line[|a| + 1..]
  }

  lemma LeadsIff(a: string, line: string)
    ensures Leads(a, line) ==> line == a + [BLANK] + After(a, line)
    ensures forall tail :: line == a + [BLANK] + tail ==> Leads(a, line) && After(a, line) == tail
  {}

  /** The line leads with the argument, or cannot spell it and more. */
  lemma SpellsLeads(a: string, rest: seq<string>, line: string)
    requires rest != [] && Spells([a] + rest, line)
    ensures Leads(a, line)
  {
    JoinStarts(a, rest);
    var tail := if line == Join([a] + rest) then Join(rest) else Join(rest) + [BLANK];
    assert line == a + [BLANK] + tail;
  }

  lemma {:induction false} ChainSpells(args: seq<string>, line: string)
    ensures Chain(args, line) <==> Spells(args, line)
    decreases |args|
  {
    if |args| == 1 {
      var a := args[0];
      assert args == [a];
      SpellsOne(a, line);
      LeadsIff(a, line);
      if line == a + [BLANK] {
        assert line == a + [BLANK] + [];
      }
    } else if |args| > 1 {
      var a, rest := args[0], args[1..];
      assert args == [a] + rest;
      if Spells(args, line) {
        SpellsLeads(a, rest, line);
      }
      if Leads(a, line) {
        LeadsIff(a, line);
        ChainSpells(rest, After(a, line));
        SpellsMore(a, rest, After(a, line));
      }
    }
  }

  lemma SplitsInPart(line: string, k: nat, c: nat, j: nat)
    requires k <= j < c <= |line| && Closed(line, k)
    ensures Splits(line, j) <==> Splits(line[k..c], j - k)
  {
    QuotesInPart(line, k, c, j - k);
  }

  /** A part of the line that starts at a closed position and has no splitting blank. */
  lemma ArgAt(line: string, k: nat, c: nat)
    requires k <= c <= |line| && Closed(line, k)
    ensures Unbroken(line[k..c]) <==> forall j :: k <= j < c ==> !Splits(line, j)
    ensures Balanced(line[k..c]) <==> Closed(line, c)
  {
    var a := line[k..c];
    QuotesInPart(line, k, c, c - k);
    forall i | 0 <= i < |a|
      ensures Splits(line, k + i) <==> Splits(a, i)
    {
      SplitsInPart(line, k, c, k + i);
    }
    if Unbroken(a) {
      forall j | k <= j < c
        ensures !Splits(line, j)
      {
        assert !Splits(a, j - k);
      }
    }
  }

  /** A closed position stays closed past a splitting blank. */
  lemma ClosedPast(line: string, c: nat)
    requires c < |line| && Splits(line, c)
    ensures Closed(line, c + 1)
  {}

  /** A first argument that ends at a blank is the one the cut finds. */
  lemma FirstArg(line: string, k: nat, a: string, rest: string)
    requires k <= |line| && Closed(line, k) && line[k..] == a + [BLANK] + rest
    requires Unbroken(a) && Balanced(a)
    ensures k + |a| < |line| && Cut(line, k) == k + |a| && line[k..k + |a|] == a && line[k + |a| + 1..] == rest
    ensures Closed(line, k + |a| + 1)
  {
    var c := k + |a|;
    assert |line[k..]| == |a| + 1 + |rest|;
    assert forall j :: 0 <= j < |a| ==> line[k + j] == line[k..][j] == a[j];
    assert line[k..c] == a;
    assert line[c] == line[k..][|a|] == BLANK;
    assert line[c + 1..] == line[k..][|a| + 1..] == rest;
    ArgAt(line, k, c);
    CutIsFirst(line, k, c);
    ClosedPast(line, c);
  }

  /** A last argument that runs to the end of the line. */
  lemma LastArg(line: string, k: nat, a: string)
    requires k <= |line| && Closed(line, k) && line[k..] == a && Unbroken(a)
    ensures Cut(line, k) == |line| && line[k..|line|] == a
  {
    assert line[k..|line|] == a;
    ArgAt(line, k, |line|);
    CutIsFirst(line, k, |line|);
  }

  lemma ArgsFirst(line: string, k: nat, a: string)
    requires k <= |line| && Closed(line, k) && Leads(a, line[k..]) && Unbroken(a) && Balanced(a)
    ensures k + |a| < |line| && Closed(line, k + |a| + 1) && line[k + |a| + 1..] == After(a, line[k..])
    ensures Args(line, k) == [a] + Args(line, k + |a| + 1)
  {
    LeadsIff(a, line[k..]);
    FirstArg(line, k, a, After(a, line[k..]));
  }

  lemma ArgsLast(line: string, k: nat, a: string)
    requires k < |line| && Closed(line, k) && line[k..] == a && Unbroken(a)
    ensures Args(line, k) == [a]
  {
    LastArg(line, k, a);
    assert Args(line, |line|) == [];
  }

  /** The first argument of the split. */
  lemma ArgsHead(line: string, k: nat)
    requires k < |line| && Closed(line, k)
    ensures var args := Args(line, k);
      && |args| >= 1 && Unbroken(args[0])
      && ((|args| == 1 && line[k..] == args[0]) || (Leads(args[0], line[k..]) && Balanced(args[0])))
  {
    var c := Cut(line, k);
    ArgAt(line, k, c);
    if c == |line| {
      assert line[k..c] == line[k..] && Args(line, c) == [];
    } else {
      assert line[k..][..c - k] == line[k..c] && line[k..][c - k] == line[c];
    }
  }

  lemma {:induction false} ArgsChain(line: string, k: nat, args: seq<string>, part: string)
    requires k <= |line| && Closed(line, k) && part == line[k..]
    ensures args == Args(line, k) <==> Chain(args, part)
    decreases |line| - k
  {
    if k < |line| {
      ArgsHead(line, k);
      if args != [] {
        var a := args[0];
        if |args| == 1 && part == a && Unbroken(a) {
          ArgsLast(line, k, a);
          assert args == [a];
        } else if Leads(a, part) && Unbroken(a) && Balanced(a) {
          ArgsFirst(line, k, a);
          ArgsChain(line, k + |a| + 1, args[1..], After(a, part));
          assert args == [a] + args[1..];
        }
      }
    }
  }

  lemma JoinStarts(a: string, rest: seq<string>)
    requires rest != []
    ensures Join([a] + rest) == a + [BLANK] + Join(rest)
  {
    assert ([a] + rest)[1..] == rest;
  }

  /** Every blank of an argument is behind an odd number of quotes; a balanced one has an even number in all. */
  lemma UnbrokenMeans(arg: string)
    ensures Unbroken(arg) <==> forall k :: 0 <= k < |arg| && arg[k] == ' ' ==> |QuotesBefore(arg, k)| % 2 == 1
    ensures Balanced(arg) <==> |QuotesBefore(arg, |arg|)| % 2 == 0
  {
    QuotesAreCounted(arg, |arg|);
    forall k | 0 <= k < |arg|
      ensures Splits(arg, k) <==> arg[k] == ' ' && |QuotesBefore(arg, k)| % 2 == 0
    {
      QuotesAreCounted(arg, k);
    }
  }

  /** Arguments are joined with blanks. */
  lemma JoinMeans(a: string, rest: seq<string>)
    ensures Join([a]) == a
    ensures rest != [] ==> Join([a] + rest) == a + " " + Join(rest)
  {
    if rest != [] {
      JoinStarts(a, rest);
    }
  }

  /** For example. */
  lemma QuotedBlanksStay(text: string)
    requires text == "a \"b c\" d"
    ensures Args(text, 0) == ["a", "\"b c\"", "d"]
  {
    var b: string, d: string := "\"b c\"", "d";
    SmallArgs(b, d);
    SpellsOne(d, d);
    SpellsMore(b, [d], d);
    assert [b] + [d] == [b, d] && ["a"] + [b, d] == ["a", b, d];
    SpellsMore("a", [b, d], b + " " + d);
    assert text == "a" + " " + (b + " " + d);
    SplitIff(text, ["a", b, d]);
  }

  lemma SmallArgs(b: string, d: string)
    requires b == "\"b c\"" && d == "d"
    ensures Unbroken("a") && Balanced("a") && Unbroken(d) && Unbroken(b) && Balanced(b)
  {
    assert Quotes(b, 0) == 0 && Quotes(b, 1) == 1 && Quotes(b, 2) == 1 && Quotes(b, 3) == 1 && Quotes(b, 4) == 1;
    assert Quotes(b, 5) == 2;
    assert Quotes("a", 0) == 0 && Quotes("a", 1) == 0;
  }

  /**
    The split is the one list of arguments that spells the line: joined with
    blanks they give it back, up to one blank at the end, and they are cut at
    exactly the blanks outside quotes.
   */
  lemma SplitIff(line: string, args: seq<string>)
    ensures args == Args(line, 0) <==> Spells(args, line)
  {
    assert line[0..] == line;
    ArgsChain(line, 0, args, line);
    ChainSpells(args, line);
  }
}
