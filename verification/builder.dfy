/**
  `__HandleParams`: reorder the declared parameters of a front-end by its
  `ArgsOrder`, turn each `OB_` parameter that has a value into a command
  fragment, and optionally run the command. The parameters the source
  finds by stack introspection are passed here as an explicit list.
 */
module Builder {
  import opened Wrappers
  import opened Text
  import opened Values
  import opened Commands
  import opened Runner

  /** A declared parameter of a front-end with the value it has (None for Python's None). */
  datatype Param = Param(name: string, value: Option<Value>)

  /** The dictionary `__HandleParams` returns. */
  datatype Build = Build(exec: string, args: map<string, string>, cmdStr: string, cmdRtrn: Option<ProcessData>, funcName: string)

  /** What the outside world answers for one build: whether the input file exists, and the process if it is run. */
  datatype Env = Env(inputExists: bool, process: Process)

  predicate Distinct<T(==)>(s: seq<T>) {
    forall i, j | 0 <= i < j < |s| :: s[i] != s[j]
  }

  function Names(ps: seq<Param>): (r: seq<string>)
    ensures |r| == |ps| && forall i | 0 <= i < |ps| :: r[i] == ps[i].name
  {
    if ps == [] then [] else Names(ps[..|ps| - 1]) + [Last(ps).name]
  }

  // ---------------------------------------------------------------------
  // Reordering by ArgsOrder
  // ---------------------------------------------------------------------

  /** The entry of `ArgsOrder` that stands for every parameter it does not name. */
  const Placeholder := "Options"

  /** `[arg for arg in ArgsOrder if arg != 'Options']` */
  function WithoutPlaceholder(order: seq<string>): (r: seq<string>)
    ensures forall x :: x in r <==> x in order && x != Placeholder
  {
    if order == [] then []
    else WithoutPlaceholder(order[..|order| - 1]) + (if Last(order) != Placeholder then [Last(order)] else [])
  }

  /** `[arg for arg in params_names if arg not in args_to_order]` */
  function Others(names: seq<string>, toOrder: seq<string>): (r: seq<string>)
    ensures forall x :: x in r <==> x in names && x !in toOrder
    ensures Distinct(names) ==> Distinct(r)
  {
    if names == [] then []
    else
      var init := Others(names[..|names| - 1], toOrder);
      assert Distinct(names) ==> Last(names) !in names[..|names| - 1];
      init + (if Last(names) !in toOrder then [Last(names)] else [])
  }

  /**
    The flattening `[x for x in ordered_args for x in x]` of the entries
    left as they were: a name becomes itself, a further `'Options'` string
    its seven characters.
   */
  function Expanded(order: seq<string>): (r: seq<string>)
    ensures forall x | x in order && x != Placeholder :: x in r
    ensures Placeholder !in order ==> r == order
  {
    if order == [] then []
    else
      var init := Expanded(order[..|order| - 1]);
      assert order == order[..|order| - 1] + [Last(order)];
      init + (if Last(order) == Placeholder then Chars(Placeholder) else [Last(order)])
  }

  /** `s.index(x)` */
  function FirstIndex(s: seq<string>, x: string): (i: nat)
    requires x in s
    ensures i < |s| && s[i] == x && x !in s[..i]
  {
    if s[0] == x then 0
    else
      var i := 1 + FirstIndex(s[1..], x);
      assert s[..i] == [s[0]] + s[1..][..i - 1];
      i
  }

  /** The first name that `params_dict[arg]` would not find. */
  function FirstMissing(xs: seq<string>, names: seq<string>): (r: Option<string>)
    ensures r.None? <==> forall x | x in xs :: x in names
    ensures r.Some? ==> r.value in xs && r.value !in names
    ensures r.Some? ==> exists j | 0 <= j < |xs| :: xs[j] == r.value && forall i | 0 <= i < j :: xs[i] in names
  {
    if xs == [] then None
    else if xs[0] !in names then Some(xs[0])
    else
      var r := FirstMissing(xs[1..], names);
      assert forall x | x in xs :: x == xs[0] || x in xs[1..];
      assert r.Some? ==> exists j | 1 <= j < |xs| :: xs[j] == r.value && forall i | 1 <= i < j :: xs[i] in names;
      r
  }

  /** The keys of a dict comprehension over xs: each kept at its first position. */
  function Dedup(xs: seq<string>): (r: seq<string>)
    ensures forall x :: x in r <==> x in xs
    ensures Distinct(r)
    ensures Distinct(xs) ==> r == xs
  {
    if xs == [] then []
    else
      var init := Dedup(xs[..|xs| - 1]);
      assert Distinct(xs) ==> Last(xs) !in xs[..|xs| - 1];
      if Last(xs) in init then init else init + [Last(xs)]
  }

  /**
    The reordering of the declared parameter names: an empty `ArgsOrder`
    keeps them; otherwise the names before its first `'Options'`, every name
    it does not mention, then the names after. A missing `'Options'` raises
    `ValueError`, a name that is not declared `KeyError`.
   */
  function Reorder(names: seq<string>, order: seq<string>): (r: Result<seq<string>, Error>)
    ensures order == [] ==> r == Ok(names)
    ensures order != [] && Placeholder !in order ==> r.Err? && r.error.ValueError?
    ensures r.Ok? ==> forall x :: x in r.value <==> x in names
    ensures r.Ok? && order != [] ==> Distinct(r.value)
  {
    if order == [] then Ok(names)
    else if Placeholder !in order then Err(ValueError("'Options' is not in list"))
    else
      var toOrder := WithoutPlaceholder(order);
      var others := Others(names, toOrder);
      var i := FirstIndex(order, Placeholder);
      var ordered := Expanded(order[..i]) + others + Expanded(order[i + 1..]);
      match FirstMissing(ordered, names)
      case Some(missing) => Err(KeyError(missing))
      case None =>
        OrderedCovers(names, order, i);
        Ok(Dedup(ordered))
  }

  /** Every declared name is placed: it is either named by the order or among the others. */
  lemma {:induction false} OrderedCovers(names: seq<string>, order: seq<string>, i: nat)
    requires i < |order| && order[i] == Placeholder
    ensures var ordered := Expanded(order[..i]) + Others(names, WithoutPlaceholder(order)) + Expanded(order[i + 1..]);
      forall x | x in names :: x in ordered
  {
    var toOrder := WithoutPlaceholder(order);
    forall x | x in names
      ensures x in Expanded(order[..i]) + Others(names, toOrder) + Expanded(order[i + 1..])
    {
      if x in toOrder {
        var j :| 0 <= j < |order| && order[j] == x;
        if j < i {
          assert x in order[..i];
        } else {
          assert order[i + 1..][j - i - 1] == x;
        }
      }
    }
  }

  lemma {:induction false} DistinctMultiplicity(s: seq<string>)
    requires Distinct(s)
    ensures forall x :: multiset(s)[x] == if x in s then 1 else 0
    decreases |s|
  {
    if s != [] {
      var init := s[..|s| - 1];
      DistinctMultiplicity(init);
      assert s == init + [Last(s)];
      assert Last(s) !in init;
    }
  }

  lemma {:induction false} DistinctAppend(a: seq<string>, b: seq<string>)
    requires Distinct(a) && Distinct(b) && forall x | x in a :: x !in b
    ensures Distinct(a + b)
  {
    forall i, j | 0 <= i < j < |a + b| ensures (a + b)[i] != (a + b)[j] {
      if i < |a| && j >= |a| {
        assert (a + b)[i] in a && (a + b)[j] in b;
      }
    }
  }

  /** Around the first `'Options'` of a duplicate-free order: no second one, and the two sides are disjoint. */
  lemma {:induction false} AroundPlaceholder(order: seq<string>, i: nat)
    requires Distinct(order) && i < |order| && order[i] == Placeholder && Placeholder !in order[..i]
    ensures Placeholder !in order[i + 1..]
    ensures Distinct(order[..i]) && Distinct(order[i + 1..])
    ensures forall x | x in order[..i] :: x !in order[i + 1..]
  {
    var before, after := order[..i], order[i + 1..];
    assert forall j | 0 <= j < |after| :: after[j] == order[i + 1 + j];
    assert forall j | 0 <= j < |before| :: before[j] == order[j];
  }

  /** Elements of `WithoutPlaceholder(order)` do not occur among the others, so the three parts are disjoint. */
  lemma {:induction false} ReorderDistinct(names: seq<string>, order: seq<string>, i: nat)
    requires Distinct(names) && Distinct(order) && i < |order| && order[i] == Placeholder && Placeholder !in order[..i]
    ensures Distinct(order[..i] + Others(names, WithoutPlaceholder(order)) + order[i + 1..])
  {
    var before, after := order[..i], order[i + 1..];
    var others := Others(names, WithoutPlaceholder(order));
    AroundPlaceholder(order, i);
    assert forall x | x in before :: x in order;
    assert forall x | x in after :: x in order;
    DistinctAppend(before, others);
    DistinctAppend(before + others, after);
  }

  /** Two duplicate-free sequences with the same elements are permutations of each other. */
  lemma {:induction false} SameElementsPermutation(a: seq<string>, b: seq<string>)
    requires Distinct(a) && Distinct(b) && forall x :: x in a <==> x in b
    ensures multiset(a) == multiset(b)
  {
    DistinctMultiplicity(a);
    DistinctMultiplicity(b);
  }

  /**
    When `'Options'` occurs once and the other entries are distinct declared
    names, the reordering is the names before it, the parameters the order
    does not name in declaration order, then the names after it: a
    permutation of the declared names.
   */
  lemma {:induction false} ReorderPermutes(names: seq<string>, order: seq<string>)
    requires Distinct(names) && Distinct(order) && Placeholder in order
    requires forall x | x in order && x != Placeholder :: x in names
    ensures var i := FirstIndex(order, Placeholder);
      Reorder(names, order) == Ok(order[..i] + Others(names, WithoutPlaceholder(order)) + order[i + 1..])
    ensures Reorder(names, order).Ok? && multiset(Reorder(names, order).value) == multiset(names)
  {
    var i := FirstIndex(order, Placeholder);
    var ordered := order[..i] + Others(names, WithoutPlaceholder(order)) + order[i + 1..];
    ReorderOrdered(names, order, i);
    assert Reorder(names, order) == Ok(ordered);
    SameElementsPermutation(ordered, names);
    assert multiset(ordered) == multiset(names);
  }

  /** With one `'Options'` at i, the reordering is the three parts, each name once, every declared name present. */
  lemma {:induction false} ReorderOrdered(names: seq<string>, order: seq<string>, i: nat)
    requires Distinct(names) && Distinct(order) && i < |order| && order[i] == Placeholder && Placeholder !in order[..i]
    requires forall x | x in order && x != Placeholder :: x in names
    ensures var ordered := order[..i] + Others(names, WithoutPlaceholder(order)) + order[i + 1..];
      Reorder(names, order) == Ok(ordered) && Distinct(ordered) && forall x :: x in ordered <==> x in names
  {
    var ordered := order[..i] + Others(names, WithoutPlaceholder(order)) + order[i + 1..];
    ReorderShape(names, order, i);
    ReorderDistinct(names, order, i);
    assert Dedup(ordered) == ordered;
  }

  /** With a single `'Options'`, nothing is expanded into characters and every placed name is declared. */
  lemma {:induction false} ReorderShape(names: seq<string>, order: seq<string>, i: nat)
    requires Distinct(order) && i < |order| && order[i] == Placeholder && Placeholder !in order[..i]
    requires forall x | x in order && x != Placeholder :: x in names
    ensures var ordered := order[..i] + Others(names, WithoutPlaceholder(order)) + order[i + 1..];
      Reorder(names, order) == Ok(Dedup(ordered)) &&
      forall x :: x in ordered <==> x in names
  {
    var before, after := order[..i], order[i + 1..];
    var ordered := before + Others(names, WithoutPlaceholder(order)) + after;
    AroundPlaceholder(order, i);
    assert Expanded(before) == before;
    assert Expanded(after) == after;
    PlacedDeclared(names, order, i);
    assert FirstMissing(ordered, names).None?;
    assert FirstIndex(order, Placeholder) == i;
  }

  /** The names placed around the others are exactly the declared ones. */
  lemma {:induction false} PlacedDeclared(names: seq<string>, order: seq<string>, i: nat)
    requires i < |order| && order[i] == Placeholder && Placeholder !in order[..i] && Placeholder !in order[i + 1..]
    requires forall x | x in order && x != Placeholder :: x in names
    ensures forall x :: x in order[..i] + Others(names, WithoutPlaceholder(order)) + order[i + 1..] <==> x in names
  {
    var before, after := order[..i], order[i + 1..];
    assert forall x | x in before :: x in order;
    assert forall x | x in after :: x in order;
    OrderedCovers(names, order, i);
    assert Expanded(before) == before;
    assert Expanded(after) == after;
  }

  // ---------------------------------------------------------------------
  // Assembly of the fragments
  // ---------------------------------------------------------------------

  /** A program argument: its name starts with `OB_` and its value is not None. */
  predicate Contributes(x: Param) {
    StartsWith(x.name, "OB_") && x.value.Some?
  }

  /** `param.replace('OB_', '')` */
  function KeyOf(name: string): string {
    RemoveAll(name, "OB_")
  }

  /** What one program argument adds: its key in `Args`, the value it was given, and its fragment. */
  datatype Contribution = Contribution(key: string, value: Value, fragment: string)

  /**
    The fragment of one program argument, looked up under its key. An
    `OB_Verbose` argument is rendered with the builder's own `Verbose` flag
    instead of its value.
   */
  function Contribute(p: Prog, x: Param, verbose: bool): (r: Result<Contribution, Error>)
    requires Contributes(x)
    ensures r.Ok? ==> r.value.key == KeyOf(x.name) && x.value == Some(r.value.value)
  {
    var key := KeyOf(x.name);
    var v := if key == "Verbose" then VBool(verbose) else x.value.value;
    match Fragment(p, key, v)
    case Err(e) => Err(e)
    case Ok(f) => Ok(Contribution(key, x.value.value, f))
  }

  /**
    An `OB_Verbose` argument is rendered from the builder's `Verbose` flag
    whatever value it was given.
   */
  lemma {:induction false} VerboseReplaced(p: Prog, given: Value, verbose: bool)
    ensures var x := Param("OB_Verbose", Some(given));
      Contributes(x) &&
      Contribute(p, x, verbose) ==
        match Fragment(p, "Verbose", VBool(verbose))
        case Err(e) => Err(e)
        case Ok(f) => Ok(Contribution("Verbose", given, f))
  {
    assert "OB_Verbose" == "OB_" + "Verbose";
    RemoveAllLeading("OB_", "Verbose", '_');
  }

  /** For obenergy, an `OB_Verbose` argument gives `-v` exactly when `Verbose` is set. */
  lemma {:induction false} EnergyVerboseFlag(given: Value, verbose: bool)
    ensures Contribute(Obenergy, Param("OB_Verbose", Some(given)), verbose) ==
      Ok(Contribution("Verbose", given, if verbose then "-v" else ""))
  {
    VerboseReplaced(Obenergy, given, verbose);
    assert "Verbose"[0] == 'V' && "InputFile"[0] == 'I' && "OutputFile"[0] == 'O' && "AddHydrogen"[0] == 'A' && "ForceField"[0] == 'F';
    assert Table(Obenergy, "Verbose") == Some(Flag("-v"));
  }

  /** The program arguments among the parameters, in order. */
  function Arguments(ps: seq<Param>): (r: seq<Param>)
    ensures forall x | x in r :: Contributes(x)
  {
    if ps == [] then []
    else
      var init := ps[..|ps| - 1];
      Arguments(init) + (if Contributes(Last(ps)) then [Last(ps)] else [])
  }

  lemma {:induction false} ArgumentsAppend(a: seq<Param>, b: seq<Param>)
    ensures Arguments(a + b) == Arguments(a) + Arguments(b)
    decreases |b|
  {
    if b == [] {
      assert a + b == a;
    } else {
      var init := b[..|b| - 1];
      ArgumentsAppend(a, init);
      assert (a + b)[..|a + b| - 1] == a + init;
      assert Last(a + b) == Last(b);
    }
  }

  lemma {:induction false} ArgumentsSplit(ps: seq<Param>, k: nat)
    requires k <= |ps|
    ensures Arguments(ps) == Arguments(ps[..k]) + Arguments(ps[k..])
  {
    assert ps[..k] + ps[k..] == ps;
    ArgumentsAppend(ps[..k], ps[k..]);
  }

  /** `Contribute` for one builder call, as a function of the argument. */
  function Attempt(p: Prog, verbose: bool): Param --> Result<Contribution, Error> {
    x requires Contributes(x) => Contribute(p, x, verbose)
  }

  /** f applied to each element, in order. */
  function Map<A, B>(f: A --> B, xs: seq<A>): (ys: seq<B>)
    requires forall x | x in xs :: f.requires(x)
    ensures |ys| == |xs| && forall i | 0 <= i < |xs| :: ys[i] == f(xs[i])
  {
    if xs == [] then [] else Map(f, xs[..|xs| - 1]) + [f(Last(xs))]
  }

  lemma {:induction false} MapAppend<A, B>(f: A --> B, a: seq<A>, b: seq<A>)
    requires forall x | x in a + b :: f.requires(x)
    ensures Map(f, a + b) == Map(f, a) + Map(f, b)
    decreases |b|
  {
    if b == [] {
      assert a + b == a;
    } else {
      var init := b[..|b| - 1];
      assert forall x | x in a + init :: x in a + b;
      MapAppend(f, a, init);
      assert (a + b)[..|a + b| - 1] == a + init;
      assert Last(a + b) == Last(b);
    }
  }

  /** The fragment of each program argument, or the exception its lambda raises. */
  function Attempts(p: Prog, args: seq<Param>, verbose: bool): (rs: seq<Result<Contribution, Error>>)
    requires forall x | x in args :: Contributes(x)
  {
    Map(Attempt(p, verbose), args)
  }

  lemma {:induction false} AttemptsAppend(p: Prog, a: seq<Param>, b: seq<Param>, verbose: bool)
    requires forall x | x in a :: Contributes(x)
    requires forall x | x in b :: Contributes(x)
    ensures Attempts(p, a + b, verbose) == Attempts(p, a, verbose) + Attempts(p, b, verbose)
  {
    MapAppend(Attempt(p, verbose), a, b);
  }

  /**
    Running the attempts in order: all their contributions when none fails,
    otherwise the exception of the first that fails.
   */
  function Collect(rs: seq<Result<Contribution, Error>>): (r: Result<seq<Contribution>, Error>)
    ensures r.Ok? <==> forall i | 0 <= i < |rs| :: rs[i].Ok?
    ensures r.Ok? ==> |r.value| == |rs| && forall i | 0 <= i < |rs| :: rs[i] == Ok(r.value[i])
    ensures r.Err? ==> exists i | 0 <= i < |rs| :: rs[i] == Err(r.error) && forall j | 0 <= j < i :: rs[j].Ok?
  {
    if rs == [] then Ok([])
    else
      var init := rs[..|rs| - 1];
      assert forall i | 0 <= i < |init| :: init[i] == rs[i];
      match Collect(init)
      case Err(e) => Err(e)
      case Ok(cs) =>
        match Last(rs)
        case Err(e) => Err(e)
        case Ok(c) => Ok(cs + [c])
  }

  /** Once an exception is raised, nothing after it matters. */
  lemma {:induction false} CollectAfterError(a: seq<Result<Contribution, Error>>, b: seq<Result<Contribution, Error>>)
    requires Collect(a).Err?
    ensures Collect(a + b) == Collect(a)
    decreases |b|
  {
    if b == [] {
      assert a + b == a;
    } else {
      CollectAfterError(a, b[..|b| - 1]);
      assert (a + b)[..|a + b| - 1] == a + b[..|b| - 1];
    }
  }

  /** The contributions of the program arguments in order, or the first exception. */
  function Contributions(p: Prog, ps: seq<Param>, verbose: bool): Result<seq<Contribution>, Error> {
    Collect(Attempts(p, Arguments(ps), verbose))
  }

  /** One more parameter: a program argument adds its attempt, any other parameter nothing. */
  lemma {:induction false} ContributionsStep(p: Prog, ps: seq<Param>, i: nat, verbose: bool)
    requires i < |ps|
    ensures var before := Contributions(p, ps[..i], verbose);
      Contributions(p, ps[..i + 1], verbose) ==
        if !Contributes(ps[i]) || before.Err? then before
        else match Contribute(p, ps[i], verbose)
          case Err(e) => Err(e)
          case Ok(c) => Ok(before.value + [c])
  {
    var pre := ps[..i + 1];
    assert pre[..|pre| - 1] == ps[..i] && Last(pre) == ps[i];
    var args := Arguments(ps[..i]);
    if Contributes(ps[i]) {
      assert Arguments(pre) == args + [ps[i]];
      AttemptsAppend(p, args, [ps[i]], verbose);
    } else {
      assert Arguments(pre) == args + [];
      assert args + [] == args;
    }
  }

  /** An exception raised at parameter i is the exception of the whole loop. */
  lemma {:induction false} ContributionsStop(p: Prog, ps: seq<Param>, i: nat, verbose: bool)
    requires i < |ps| && Contributions(p, ps[..i + 1], verbose).Err?
    ensures Contributions(p, ps, verbose) == Contributions(p, ps[..i + 1], verbose)
  {
    ArgumentsSplit(ps, i + 1);
    var a, b := Arguments(ps[..i + 1]), Arguments(ps[i + 1..]);
    AttemptsAppend(p, a, b, verbose);
    CollectAfterError(Attempts(p, a, verbose), Attempts(p, b, verbose));
  }

  /**
    A parameter that is not a program argument (no `OB_` prefix, as
    `Execute`, `Verbose` and `PrintSameLine`, or a None value) contributes nothing.
   */
  lemma {:induction false} NonContributingIgnored(p: Prog, a: seq<Param>, x: Param, b: seq<Param>, verbose: bool)
    requires !Contributes(x)
    ensures Contributions(p, a + [x] + b, verbose) == Contributions(p, a + b, verbose)
  {
    ArgumentsAppend(a + [x], b);
    ArgumentsAppend(a, [x]);
    ArgumentsAppend(a, b);
    assert Arguments([x]) == [];
    assert Arguments(a) + [] == Arguments(a);
  }

  /** `command_str` after the loop, less the executable: each fragment followed by a space. */
  function CommandTail(cs: seq<Contribution>): string {
    if cs == [] then "" else CommandTail(cs[..|cs| - 1]) + Last(cs).fragment + " "
  }

  /** `result_args` after the loop. */
  function ArgsMap(cs: seq<Contribution>): (m: map<string, string>)
    ensures forall k :: k in m <==> exists c | c in cs :: c.key == k
  {
    if cs == [] then map[]
    else
      var init := cs[..|cs| - 1];
      assert forall c | c in cs :: c in init || c == Last(cs);
      ArgsMap(init)[Last(cs).key := Last(cs).fragment]
  }

  /** Each key holds the fragment of the last contribution under that key: a later one overwrites an earlier one. */
  lemma {:induction false} ArgsMapLatest(cs: seq<Contribution>)
    ensures forall j | 0 <= j < |cs| && (forall i | j < i < |cs| :: cs[i].key != cs[j].key) ::
      cs[j].key in ArgsMap(cs) && ArgsMap(cs)[cs[j].key] == cs[j].fragment
    decreases |cs|
  {
    if cs != [] {
      var init := cs[..|cs| - 1];
      ArgsMapLatest(init);
      forall j | 0 <= j < |cs| && (forall i | j < i < |cs| :: cs[i].key != cs[j].key)
        ensures cs[j].key in ArgsMap(cs) && ArgsMap(cs)[cs[j].key] == cs[j].fragment
      {
        if j < |init| {
          assert init[j] == cs[j];
          assert cs[|cs| - 1].key != cs[j].key;
          assert forall i | j < i < |init| :: init[i] == cs[i];
        }
      }
    }
  }

  function MissingInputMessage(v: Value): string {
    "Invalid value passed to \"InputFile\" = \"" + Show(v) + "\"! File not found!"
  }

  /** The error messages printed for an input file that does not exist. */
  function Warnings(cs: seq<Contribution>, inputExists: bool): seq<string> {
    if cs == [] then []
    else
      var before := Warnings(cs[..|cs| - 1], inputExists);
      if Last(cs).key == "InputFile" && !inputExists then before + [MissingInputMessage(Last(cs).value)] else before
  }

  /** What one more contribution does to the command, the `Args` dictionary and the messages. */
  lemma {:induction false} AppendContribution(head: string, cs: seq<Contribution>, c: Contribution, inputExists: bool)
    ensures head + CommandTail(cs + [c]) == head + CommandTail(cs) + c.fragment + " "
    ensures ArgsMap(cs + [c]) == ArgsMap(cs)[c.key := c.fragment]
    ensures Warnings(cs + [c], inputExists) ==
      if c.key == "InputFile" && !inputExists then Warnings(cs, inputExists) + [MissingInputMessage(c.value)]
      else Warnings(cs, inputExists)
  {
    assert (cs + [c])[..|cs|] == cs;
  }

  /** The command before stripping, the `Args` dictionary, and the messages printed. */
  datatype Assembled = Assembled(command: string, args: map<string, string>, warnings: seq<string>)

  /** What the loop over the reordered parameters produces. */
  function Assembly(p: Prog, ps: seq<Param>, verbose: bool, inputExists: bool): Result<Assembled, Error> {
    match Contributions(p, ps, verbose)
    case Err(e) => Err(e)
    case Ok(cs) => Ok(Assembled(ExecName(p) + " " + CommandTail(cs), ArgsMap(cs), Warnings(cs, inputExists)))
  }

  /**
    One pass of the loop body on what the loop has built so far: a program
    argument adds its fragment, its key and, for a missing input file, a
    message; any other parameter adds nothing.
   */
  function Absorb(p: Prog, a: Assembled, x: Param, verbose: bool, inputExists: bool): Result<Assembled, Error> {
    if !Contributes(x) then Ok(a)
    else match Contribute(p, x, verbose)
      case Err(e) => Err(e)
      case Ok(c) =>
        var key := KeyOf(x.name);
        var warnings := if key == "InputFile" && !inputExists then a.warnings + [MissingInputMessage(x.value.value)] else a.warnings;
        Ok(Assembled(a.command + c.fragment + " ", a.args[key := c.fragment], warnings))
  }

  /** The loop body applied to parameter i continues the assembly of the first i parameters. */
  lemma {:induction false} AssemblyStep(p: Prog, ps: seq<Param>, i: nat, verbose: bool, inputExists: bool)
    requires i < |ps| && Assembly(p, ps[..i], verbose, inputExists).Ok?
    ensures Assembly(p, ps[..i + 1], verbose, inputExists) ==
      Absorb(p, Assembly(p, ps[..i], verbose, inputExists).value, ps[i], verbose, inputExists)
  {
    ContributionsStep(p, ps, i, verbose);
    var cs := Contributions(p, ps[..i], verbose).value;
    if Contributes(ps[i]) && Contribute(p, ps[i], verbose).Ok? {
      var c := Contribute(p, ps[i], verbose).value;
      AppendContribution(ExecName(p) + " ", cs, c, inputExists);
    }
  }

  /** Before the loop: the executable and a space, no arguments, no messages. */
  lemma {:induction false} AssemblyStart(p: Prog, ps: seq<Param>, verbose: bool, inputExists: bool)
    ensures Assembly(p, ps[..0], verbose, inputExists) == Ok(Assembled(ExecName(p) + " ", map[], []))
  {
    assert ps[..0] == [];
    assert ExecName(p) + " " + "" == ExecName(p) + " ";
  }

  /** An exception raised at parameter i ends the loop with it. */
  lemma {:induction false} AssemblyStop(p: Prog, ps: seq<Param>, i: nat, verbose: bool, inputExists: bool)
    requires i < |ps| && Assembly(p, ps[..i + 1], verbose, inputExists).Err?
    ensures Assembly(p, ps, verbose, inputExists) == Assembly(p, ps[..i + 1], verbose, inputExists)
  {
    ContributionsStop(p, ps, i, verbose);
  }

  /** The assembly loop of `__HandleParams`. */
  method Assemble(p: Prog, ps: seq<Param>, verbose: bool, inputExists: bool) returns (r: Result<Assembled, Error>)
    ensures r == Assembly(p, ps, verbose, inputExists)
  {
    var command := ExecName(p) + " ";
    var args: map<string, string> := map[];
    var warnings: seq<string> := [];
    AssemblyStart(p, ps, verbose, inputExists);
    for i := 0 to |ps|
      invariant Assembly(p, ps[..i], verbose, inputExists) == Ok(Assembled(command, args, warnings))
    {
      var x := ps[i];
      AssemblyStep(p, ps, i, verbose, inputExists);
      ghost var next := Absorb(p, Assembled(command, args, warnings), x, verbose, inputExists);
      if StartsWith(x.name, "OB_") && x.value.Some? {
        var key := RemoveAll(x.name, "OB_");
        if key == "InputFile" && !inputExists {
          warnings := warnings + [MissingInputMessage(x.value.value)];
        }
        var c := Contribute(p, x, verbose);
        if c.Err? {
          AssemblyStop(p, ps, i, verbose, inputExists);
          return Err(c.error);
        }
        args := args[key := c.value.fragment];
        command := command + c.value.fragment + " ";
      }
      assert next == Ok(Assembled(command, args, warnings));
    }
    assert ps[..|ps|] == ps;
    r := Ok(Assembled(command, args, warnings));
  }

  // ---------------------------------------------------------------------
  // The whole builder
  // ---------------------------------------------------------------------

  /** `params_dict[name]`: the value of the declared parameter of that name. */
  function ValueOf(declared: seq<Param>, name: string): Option<Value>
    requires name in Names(declared)
  {
    if declared[0].name == name then declared[0].value
    else
      assert Names(declared) == [declared[0].name] + Names(declared[1..]) by {
        assert Names(declared)[1..] == Names(declared[1..]);
      }
      ValueOf(declared[1..], name)
  }

  /** The reordered `params_dict`. */
  function Ordered(declared: seq<Param>, names: seq<string>): (ps: seq<Param>)
    requires forall x | x in names :: x in Names(declared)
    ensures Names(ps) == names
  {
    seq(|names|, i requires 0 <= i < |names| => Param(names[i], ValueOf(declared, names[i])))
  }

  function WarningEvents(warnings: seq<string>): seq<Event> {
    seq(|warnings|, i requires 0 <= i < |warnings| => Warning(warnings[i]))
  }

  /**
    The end of `__HandleParams` once the command is assembled: the messages,
    then the run if `Execute`, and the returned dictionary.
   */
  function Finished(p: Prog, a: Assembled, execute: bool, verbose: bool, forceVerbose: bool, proc: Process)
    : (Result<Build, Error>, seq<Event>)
    requires execute && verbose ==> Terminates(proc.trace)
  {
    var cmdStr := Strip(a.command);
    var warnings := WarningEvents(a.warnings);
    if !execute then (Ok(Build(ExecName(p), a.args, cmdStr, None, FuncName(p))), warnings)
    else
      var (run, events) := Execution(cmdStr, "OpenBabel", verbose, forceVerbose, proc);
      if run.Err? then (Err(run.error), warnings + events)
      else (Ok(Build(ExecName(p), a.args, cmdStr, Some(run.value), FuncName(p))), warnings + events)
  }

  /** The dictionary at the end of `__HandleParams`: a `CmdRtrn` exactly when run, holding the transcript. */
  lemma {:induction false} FinishedShape(p: Prog, a: Assembled, execute: bool, verbose: bool, forceVerbose: bool, proc: Process)
    requires execute && verbose ==> Terminates(proc.trace)
    requires Finished(p, a, execute, verbose, forceVerbose, proc).0.Ok?
    ensures var b := Finished(p, a, execute, verbose, forceVerbose, proc).0.value;
      b.exec == ExecName(p) && b.funcName == FuncName(p) && b.cmdStr == Strip(a.command) && b.args == a.args &&
      (b.cmdRtrn.Some? <==> execute) &&
      (execute ==> b.cmdRtrn.value.stdOut == Transcript(verbose, proc.trace) && b.cmdRtrn.value.msgOut == None)
  {
  }

  /**
    `__HandleParams(ArgsOrder=order, Execute, Verbose, ForceVerbose)` for
    program p with the declared parameters: the returned dictionary and the
    events, or the exception raised.
   */
  function Handling(p: Prog, declared: seq<Param>, order: seq<string>, execute: bool, verbose: bool, forceVerbose: bool, env: Env)
    : (Result<Build, Error>, seq<Event>)
    requires execute && verbose ==> Terminates(env.process.trace)
  {
    match Reorder(Names(declared), order)
    case Err(e) => (Err(e), [])
    case Ok(names) =>
      match Assembly(p, Ordered(declared, names), verbose, env.inputExists)
      case Err(e) => (Err(e), [])
      case Ok(a) => Finished(p, a, execute, verbose, forceVerbose, env.process)
  }

  /** `__HandleParams` */
  method HandleParams(p: Prog, declared: seq<Param>, order: seq<string>, execute: bool, verbose: bool, forceVerbose: bool, env: Env)
    returns (r: Result<Build, Error>, events: seq<Event>)
    requires execute && verbose ==> Terminates(env.process.trace)
    ensures (r, events) == Handling(p, declared, order, execute, verbose, forceVerbose, env)
  {
    var names := Reorder(Names(declared), order);
    if names.Err? {
      return Err(names.error), [];
    }
    var assembled := Assemble(p, Ordered(declared, names.value), verbose, env.inputExists);
    if assembled.Err? {
      return Err(assembled.error), [];
    }
    var a := assembled.value;
    assert Handling(p, declared, order, execute, verbose, forceVerbose, env) == Finished(p, a, execute, verbose, forceVerbose, env.process);
    var cmdStr := Strip(a.command);
    events := WarningEvents(a.warnings);
    var run: Option<ProcessData> := None;
    if execute {
      var result, runEvents := ExecuteCommand(cmdStr, "OpenBabel", verbose, forceVerbose, env.process);
      events := events + runEvents;
      if result.Err? {
        return Err(result.error), events;
      }
      run := Some(result.value);
    }
    r := Ok(Build(ExecName(p), a.args, cmdStr, run, FuncName(p)));
  }
}
