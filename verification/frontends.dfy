/**
  The five public front-ends of the `OpenBabel` class: `Obabel`,
  `Obminimize`, `Obconformer`, `Obenergy` and `Obgen`. Each declares its
  parameters, chooses an `ArgsOrder` and a "force verbose" setting, and
  hands over to `__HandleParams`; three of them adjust the arguments
  before or the result after.
 */
module FrontEnds {
  import opened Wrappers
  import opened Text
  import opened Values
  import opened Commands
  import opened Runner
  import opened Builder

  /** The name of the keyword parameter for option `key`: `OB_` and the key. */
  function Ob(key: string): string {
    "OB_" + key
  }

  function Obs(keys: seq<string>): (names: seq<string>)
    ensures |names| == |keys| && forall i | 0 <= i < |keys| :: names[i] == Ob(keys[i])
  {
    seq(|keys|, i requires 0 <= i < |keys| => Ob(keys[i]))
  }

  /** The options each front-end names in its `ArgsOrder`, in that order. */
  function Named(p: Prog): seq<string> {
    match p
    case Obconformer => ["InputFile", "OutputFile", "ForceField"]
    case _ => ["InputFile", "OutputFile"]
  }

  /** The other options of each front-end, in the order of its signature. */
  function Free(p: Prog): seq<string> {
    match p
    case Obabel => ["InputFormat", "OutputFormat", "Generate2D", "Generate3D", "AddHydrogen", "AddProps", "Center",
                    "ChargeCalcMethod", "DeleteHydrogens", "JoinAllToOneFile", "pH", "RenameMolecule",
                    "SaveSeparateFiles", "SkipConversionError"]
    case Obminimize => ["MinimizationSteps", "MinimizationAlgorithm", "ForceField", "OutputFormat", "AddHydrogen"]
    case Obconformer => ["NumberOfConformers", "MinimizationSteps"]
    case Obenergy => ["ForceField", "AddHydrogen", "Verbose"]
    case Obgen => ["ForceField"]
  }

  /** The option keys each front-end declares, in the order of its signature (each signature starts with the named ones). */
  function Keys(p: Prog): seq<string> {
    Named(p) + Free(p)
  }

  /** The option keys without a default value. */
  function RequiredKeys(p: Prog): seq<string> {
    match p
    case Obminimize => ["InputFile", "OutputFile", "MinimizationSteps"]
    case Obenergy => ["InputFile"]
    case _ => ["InputFile", "OutputFile"]
  }

  /** The three parameters every front-end declares after its options. */
  const Controls: seq<string> := ["Execute", "Verbose", "PrintSameLine"]

  /** The whole signature, `self` excluded: what `inspect.signature` lists. */
  function Signature(p: Prog): seq<string> {
    Obs(Keys(p)) + Controls
  }

  /** `ArgsOrder` of each front-end: obabel puts its named options first, the others last. */
  function Order(p: Prog): seq<string> {
    OrderOf(Named(p), p == Obabel)
  }

  /** `ForceVerbose`: obabel and obenergy follow `Verbose`; the others never force it. */
  function ForceVerbose(p: Prog, verbose: bool): bool {
    (p == Obabel || p == Obenergy) && verbose
  }

  /**
    A call of a front-end: the `OB_` keyword arguments given (a given
    `None` is `None` here too), and the three control flags.
   */
  datatype Call = Call(options: map<string, Option<Value>>, execute: bool, verbose: bool, printSameLine: bool)

  /** Python accepts the call: only declared options, and every option without a default. */
  predicate Accepted(p: Prog, call: Call) {
    (forall name | name in call.options :: name in Obs(Keys(p))) &&
    (forall k | k in RequiredKeys(p) :: Ob(k) in call.options)
  }

  /** The value an option has in the call: the given one, or its default `None`. */
  function Given(options: map<string, Option<Value>>, name: string): Option<Value> {
    if name in options then options[name] else None
  }

  /** What `locals()` holds for a parameter of the front-end. */
  function ValueFor(call: Call, name: string): Option<Value> {
    if name == "Execute" then Some(VBool(call.execute))
    else if name == "Verbose" then Some(VBool(call.verbose))
    else if name == "PrintSameLine" then Some(VBool(call.printSameLine))
    else Given(call.options, name)
  }

  /** The parameters named, each with its value in the call. */
  function Bind(names: seq<string>, call: Call): (ps: seq<Param>)
    ensures Names(ps) == names
    ensures |ps| == |names| && forall i | 0 <= i < |names| :: ps[i] == Param(names[i], ValueFor(call, names[i]))
  {
    seq(|names|, i requires 0 <= i < |names| => Param(names[i], ValueFor(call, names[i])))
  }

  /** The parameters `__HandleParams` reads from `locals()`, in signature order. */
  function Declared(p: Prog, call: Call): seq<Param> {
    Bind(Signature(p), call)
  }

  /**
    The `TypeError` Python raises when it cannot bind a call: an undeclared
    keyword is reported before a missing one.
   */
  function BindingError(p: Prog, call: Call): Error
    requires !Accepted(p, call)
  {
    if exists name | name in call.options :: name !in Obs(Keys(p)) then TypeError("got an unexpected keyword argument")
    else TypeError("missing a required argument")
  }

  /** A front-end call: the binding of its arguments, then `__HandleParams` as the front-end calls it. */
  function Invoke(p: Prog, call: Call, env: Env): (Result<Build, Error>, seq<Event>)
    requires call.execute && call.verbose ==> Terminates(env.process.trace)
  {
    if !Accepted(p, call) then (Err(BindingError(p, call)), [])
    else Handling(p, Declared(p, call), Order(p), call.execute, call.verbose, ForceVerbose(p, call.verbose), env)
  }

  /** Adding a value for a declared option keeps a call acceptable. */
  lemma {:induction false} AcceptedWith(p: Prog, call: Call, k: string, v: Option<Value>)
    requires Accepted(p, call) && k in Keys(p)
    ensures Accepted(p, call.(options := call.options[Ob(k) := v]))
  {
    ObsMembership(Keys(p), k);
  }

  /** Removing a declared option that has a default keeps a call acceptable; removing a required one does not. */
  lemma {:induction false} AcceptedWithout(p: Prog, call: Call, k: string)
    requires Accepted(p, call)
    ensures Accepted(p, call.(options := call.options - {Ob(k)})) <==> k !in RequiredKeys(p)
  {
    if k in RequiredKeys(p) {
      assert Ob(k) !in (call.options - {Ob(k)});
    } else {
      forall r | r in RequiredKeys(p) ensures Ob(r) in call.options - {Ob(k)} {
        ObInjective(r, k);
      }
    }
  }

  /** The parameter names in the order `__HandleParams` visits them: `'Options'` replaced by the rest in signature order. */
  function PlacedOf(named: seq<string>, free: seq<string>, first: bool): seq<string> {
    if first then Obs(named) + (Obs(free) + Controls) else (Obs(free) + Controls) + Obs(named)
  }

  function Placed(p: Prog): seq<string> {
    PlacedOf(Named(p), Free(p), p == Obabel)
  }

  lemma {:induction false} KeysDistinct(p: Prog)
    ensures Distinct(Keys(p))
  {
    if p == Obabel {
      ObabelKeysDistinct();
    }
  }

  lemma {:induction false} ObabelKeysDistinct()
    ensures Distinct(Keys(Obabel))
  {
  }

  lemma {:induction false} ObInjective(a: string, b: string)
    ensures Ob(a) == Ob(b) <==> a == b
  {
    if Ob(a) == Ob(b) {
      assert a == Ob(a)[3..] && b == Ob(b)[3..];
    }
  }

  /** None of the control parameters is an option: the second letter of every option name is `B`. */
  lemma {:induction false} ControlsNotOptions(keys: seq<string>)
    ensures forall x | x in Controls :: x !in Obs(keys)
  {
    assert forall j | 0 <= j < |Controls| :: |Controls[j]| > 1 && Controls[j][1] != 'B';
    forall i | 0 <= i < |keys| ensures Obs(keys)[i][1] == 'B' {
    }
  }

  lemma {:induction false} ObsMembership(keys: seq<string>, k: string)
    ensures Ob(k) in Obs(keys) <==> k in keys
  {
    if Ob(k) in Obs(keys) {
      var i :| 0 <= i < |keys| && Obs(keys)[i] == Ob(k);
      ObInjective(keys[i], k);
    }
    if k in keys {
      var i :| 0 <= i < |keys| && keys[i] == k;
      assert Obs(keys)[i] == Ob(k);
    }
  }

  lemma {:induction false} ObsAppend(a: seq<string>, b: seq<string>)
    ensures Obs(a + b) == Obs(a) + Obs(b)
  {
  }

  lemma {:induction false} ObsDistinct(keys: seq<string>)
    requires Distinct(keys)
    ensures Distinct(Obs(keys))
  {
    forall i, j | 0 <= i < j < |keys| ensures Obs(keys)[i] != Obs(keys)[j] {
      ObInjective(keys[i], keys[j]);
    }
  }

  lemma {:induction false} OthersAppend(a: seq<string>, b: seq<string>, t: seq<string>)
    ensures Others(a + b, t) == Others(a, t) + Others(b, t)
    decreases |b|
  {
    if b == [] {
      assert a + b == a;
    } else {
      var init := b[..|b| - 1];
      var last := if Last(b) !in t then [Last(b)] else [];
      OthersAppend(a, init, t);
      assert (a + b)[..|a + b| - 1] == a + init;
      assert Last(a + b) == Last(b);
      assert Others(a + b, t) == Others(a + init, t) + last;
      assert Others(b, t) == Others(init, t) + last;
    }
  }

  lemma {:induction false} OthersNone(a: seq<string>, t: seq<string>)
    requires forall x | x in a :: x !in t
    ensures Others(a, t) == a
    decreases |a|
  {
    if a != [] {
      var init := a[..|a| - 1];
      OthersNone(init, t);
      assert Last(a) in a;
      assert Others(a, t) == Others(init, t) + [Last(a)];
      assert a == init + [Last(a)];
    }
  }

  lemma {:induction false} OthersAll(a: seq<string>, t: seq<string>)
    requires forall x | x in a :: x in t
    ensures Others(a, t) == []
    decreases |a|
  {
    if a != [] {
      OthersAll(a[..|a| - 1], t);
    }
  }

  /** Options with distinct keys and the controls after them: no repeated name. */
  lemma {:induction false} SignatureDistinct(keys: seq<string>)
    requires Distinct(keys)
    ensures Distinct(Obs(keys) + Controls)
  {
    ObsDistinct(keys);
    ControlsNotOptions(keys);
    DistinctAppend(Obs(keys), Controls);
  }

  /** The options an order does not name are not among those it names. */
  lemma {:induction false} FreeNotNamed(named: seq<string>, free: seq<string>)
    requires Distinct(named + free)
    ensures forall x | x in Obs(free) :: x !in Obs(named)
  {
    forall x | x in Obs(free) ensures x !in Obs(named) {
      var i :| 0 <= i < |free| && Obs(free)[i] == x;
      ObsMembership(named, free[i]);
      forall j | 0 <= j < |named| ensures named[j] != free[i] {
        assert named[j] == (named + free)[j] && free[i] == (named + free)[|named| + i];
      }
    }
  }

  /** What `'Options'` stands for: the options the order does not name, then the controls. */
  lemma {:induction false} OthersOfSignature(named: seq<string>, free: seq<string>)
    requires Distinct(named + free)
    ensures Others(Obs(named + free) + Controls, Obs(named)) == Obs(free) + Controls
  {
    var n, f := Obs(named), Obs(free);
    ObsAppend(named, free);
    OthersAppend(n + f, Controls, n);
    OthersAppend(n, f, n);
    OthersAll(n, n);
    FreeNotNamed(named, free);
    OthersNone(f, n);
    ControlsNotOptions(named);
    OthersNone(Controls, n);
    assert [] + f == f;
  }

  /** No option is called `Options`. */
  lemma {:induction false} PlaceholderNotOption(keys: seq<string>)
    ensures Placeholder !in Obs(keys)
  {
    forall i | 0 <= i < |keys| ensures Obs(keys)[i] != Placeholder {
      assert Obs(keys)[i][1] == 'B';
    }
  }

  /** An `ArgsOrder` naming some options around one `'Options'`. */
  function OrderOf(named: seq<string>, first: bool): seq<string> {
    if first then Obs(named) + [Placeholder] else [Placeholder] + Obs(named)
  }

  lemma {:induction false} WithoutPlaceholderNone(order: seq<string>)
    requires Placeholder !in order
    ensures WithoutPlaceholder(order) == order
    decreases |order|
  {
    if order != [] {
      WithoutPlaceholderNone(order[..|order| - 1]);
      assert order == order[..|order| - 1] + [Last(order)];
    }
  }

  lemma {:induction false} WithoutPlaceholderAppend(a: seq<string>, b: seq<string>)
    ensures WithoutPlaceholder(a + b) == WithoutPlaceholder(a) + WithoutPlaceholder(b)
    decreases |b|
  {
    if b == [] {
      assert a + b == a;
    } else {
      WithoutPlaceholderAppend(a, b[..|b| - 1]);
      assert (a + b)[..|a + b| - 1] == a + b[..|b| - 1];
    }
  }

  /** Such an order meets what the reordering needs: no repetition, one `'Options'`, declared names. */
  lemma {:induction false} OrderOfFacts(named: seq<string>, free: seq<string>, first: bool)
    requires Distinct(named + free)
    ensures Distinct(OrderOf(named, first)) && Placeholder in OrderOf(named, first)
    ensures forall x | x in OrderOf(named, first) && x != Placeholder :: x in Obs(named + free) + Controls
  {
    assert Distinct(named) by {
      assert forall i | 0 <= i < |named| :: named[i] == (named + free)[i];
    }
    ObsDistinct(named);
    ObsAppend(named, free);
    PlaceholderNotOption(named);
    if first {
      DistinctAppend(Obs(named), [Placeholder]);
    } else {
      DistinctAppend([Placeholder], Obs(named));
    }
  }

  /** Where the `'Options'` of such an order is, the options it names, and what lies on either side. */
  lemma {:induction false} OrderOfPlaceholder(named: seq<string>, first: bool)
    ensures var i := FirstIndex(OrderOf(named, first), Placeholder);
      i == (if first then |named| else 0) &&
      OrderOf(named, first)[..i] == (if first then Obs(named) else []) &&
      OrderOf(named, first)[i + 1..] == (if first then [] else Obs(named))
    ensures WithoutPlaceholder(OrderOf(named, first)) == Obs(named)
  {
    var order := OrderOf(named, first);
    PlaceholderNotOption(named);
    WithoutPlaceholderNone(Obs(named));
    if first {
      assert order[..|named|] == Obs(named);
      WithoutPlaceholderAppend(Obs(named), [Placeholder]);
      assert WithoutPlaceholder([Placeholder]) == [];
    } else {
      WithoutPlaceholderAppend([Placeholder], Obs(named));
      assert WithoutPlaceholder([Placeholder]) == [];
    }
  }

  lemma {:induction false} EmptyEnds<T>(a: seq<T>, b: seq<T>)
    ensures [] + a + b == a + b && a + b + [] == a + b
  {
  }

  /**
    Reordering a signature by an order that names some options once and
    holds one `'Options'`: the named options go where the order puts them,
    the rest of the signature, in its order, where `'Options'` is.
   */
  lemma {:induction false} SignatureOrder(named: seq<string>, free: seq<string>, first: bool)
    requires Distinct(named + free)
    ensures Reorder(Obs(named + free) + Controls, OrderOf(named, first)) == Ok(PlacedOf(named, free, first))
  {
    var names := Obs(named + free) + Controls;
    var order := OrderOf(named, first);
    SignatureDistinct(named + free);
    OrderOfFacts(named, free, first);
    OrderOfPlaceholder(named, first);
    var i := FirstIndex(order, Placeholder);
    var rest := Others(names, WithoutPlaceholder(order));
    ReorderOrdered(names, order, i);
    assert Reorder(names, order) == Ok(order[..i] + rest + order[i + 1..]);
    OthersOfSignature(named, free);
    assert rest == Obs(free) + Controls;
    if first {
      EmptyEnds(Obs(named), Obs(free) + Controls);
      assert order[..i] + rest + order[i + 1..] == Obs(named) + (Obs(free) + Controls);
    } else {
      EmptyEnds(Obs(free) + Controls, Obs(named));
      assert order[..i] + rest + order[i + 1..] == (Obs(free) + Controls) + Obs(named);
    }
  }

  /**
    The reordering of each front-end: obabel keeps its signature order,
    the other four put the options they name after all the others.
   */
  lemma {:induction false} FrontEndOrder(p: Prog)
    ensures Reorder(Signature(p), Order(p)) == Ok(Placed(p))
  {
    KeysDistinct(p);
    SignatureOrder(Named(p), Free(p), p == Obabel);
  }

  // ---------------------------------------------------------------------
  // From a call to the options it supplies
  // ---------------------------------------------------------------------

  /** The options keys name that the call supplies (not `None`), in that order, as parameters. */
  function Supplied(keys: seq<string>, call: Call): (ps: seq<Param>)
    ensures forall x | x in ps :: Contributes(x)
  {
    if keys == [] then []
    else
      var x := Param(Ob(Last(keys)), Given(call.options, Ob(Last(keys))));
      Supplied(keys[..|keys| - 1], call) + (if x.value.Some? then [x] else [])
  }

  /** The option keys in the order `__HandleParams` visits them. */
  function KeysOf(named: seq<string>, free: seq<string>, first: bool): seq<string> {
    if first then named + free else free + named
  }

  function PlacedKeys(p: Prog): seq<string> {
    KeysOf(Named(p), Free(p), p == Obabel)
  }

  /** `params_dict[name]` finds the value the call gives that name. */
  lemma {:induction false} ValueOfBind(names: seq<string>, call: Call, n: string)
    requires n in names
    ensures ValueOf(Bind(names, call), n) == ValueFor(call, n)
    decreases |names|
  {
    if names[0] != n {
      assert Bind(names, call)[1..] == Bind(names[1..], call);
      ValueOfBind(names[1..], call, n);
    }
  }

  lemma {:induction false} OrderedBind(names: seq<string>, placed: seq<string>, call: Call)
    requires forall x | x in placed :: x in names
    ensures Ordered(Bind(names, call), placed) == Bind(placed, call)
  {
    forall i | 0 <= i < |placed| ensures Ordered(Bind(names, call), placed)[i] == Bind(placed, call)[i] {
      ValueOfBind(names, call, placed[i]);
    }
  }

  lemma {:induction false} NoArguments(ps: seq<Param>)
    requires forall x | x in ps :: !Contributes(x)
    ensures Arguments(ps) == []
    decreases |ps|
  {
    if ps != [] {
      NoArguments(ps[..|ps| - 1]);
    }
  }

  /** The control parameters are not program arguments. */
  lemma {:induction false} ControlsIgnored(call: Call)
    ensures Arguments(Bind(Controls, call)) == []
  {
    assert forall j | 0 <= j < |Controls| :: |Controls[j]| > 1 && Controls[j][1] != 'B';
    forall x | x in Bind(Controls, call) ensures !Contributes(x) {
      assert x.name in Controls;
    }
    NoArguments(Bind(Controls, call));
  }

  /** An option is not a control parameter: the call gives it its keyword argument or `None`. */
  lemma {:induction false} OptionValue(call: Call, k: string)
    ensures ValueFor(call, Ob(k)) == Given(call.options, Ob(k))
  {
    assert Ob(k)[1] == 'B';
  }

  /** Among the options, exactly those the call supplies are program arguments, in the same order. */
  lemma {:induction false} SuppliedArguments(keys: seq<string>, call: Call)
    ensures Arguments(Bind(Obs(keys), call)) == Supplied(keys, call)
    decreases |keys|
  {
    if keys != [] {
      var init := keys[..|keys| - 1];
      var b := Bind(Obs(keys), call);
      SuppliedArguments(init, call);
      assert b[..|keys| - 1] == Bind(Obs(init), call);
      OptionValue(call, Last(keys));
      assert Last(b) == Param(Ob(Last(keys)), Given(call.options, Ob(Last(keys))));
    }
  }

  /** Program arguments stay program arguments. */
  lemma {:induction false} ArgumentsOfArguments(ps: seq<Param>)
    requires forall x | x in ps :: Contributes(x)
    ensures Arguments(ps) == ps
    decreases |ps|
  {
    if ps != [] {
      ArgumentsOfArguments(ps[..|ps| - 1]);
      assert ps == ps[..|ps| - 1] + [Last(ps)];
    }
  }

  /** Only the program arguments matter to the assembly. */
  lemma {:induction false} AssemblyOfArguments(p: Prog, ps: seq<Param>, verbose: bool, inputExists: bool)
    ensures Assembly(p, ps, verbose, inputExists) == Assembly(p, Arguments(ps), verbose, inputExists)
  {
    ArgumentsOfArguments(Arguments(ps));
  }

  lemma {:induction false} BindAppend(a: seq<string>, b: seq<string>, call: Call)
    ensures Bind(a + b, call) == Bind(a, call) + Bind(b, call)
  {
  }

  /** What `'Options'` stands for, program arguments only: the supplied free options. */
  lemma {:induction false} FreeArguments(free: seq<string>, call: Call)
    ensures Arguments(Bind(Obs(free) + Controls, call)) == Supplied(free, call)
  {
    ControlsIgnored(call);
    SuppliedArguments(free, call);
    BindAppend(Obs(free), Controls, call);
    ArgumentsAppend(Bind(Obs(free), call), Bind(Controls, call));
    EmptyEnds(Supplied(free, call), []);
  }

  /** The parameters the builder visits, program arguments only: the supplied options in the visiting order. */
  lemma {:induction false} PlacedArguments(named: seq<string>, free: seq<string>, first: bool, call: Call)
    ensures Arguments(Bind(PlacedOf(named, free, first), call)) == Supplied(KeysOf(named, free, first), call)
  {
    var n, fc := Bind(Obs(named), call), Bind(Obs(free) + Controls, call);
    SuppliedArguments(named, call);
    FreeArguments(free, call);
    if first {
      SuppliedAppend(named, free, call);
      BindAppend(Obs(named), Obs(free) + Controls, call);
      ArgumentsAppend(n, fc);
    } else {
      SuppliedAppend(free, named, call);
      BindAppend(Obs(free) + Controls, Obs(named), call);
      ArgumentsAppend(fc, n);
    }
  }

  lemma {:induction false} SuppliedAppend(a: seq<string>, b: seq<string>, call: Call)
    ensures Supplied(a + b, call) == Supplied(a, call) + Supplied(b, call)
    decreases |b|
  {
    if b == [] {
      assert a + b == a;
    } else {
      SuppliedAppend(a, b[..|b| - 1], call);
      assert (a + b)[..|a + b| - 1] == a + b[..|b| - 1];
    }
  }

  /** Every name of the visiting order is declared. */
  lemma {:induction false} PlacedDeclaredNames(named: seq<string>, free: seq<string>, first: bool)
    ensures forall x | x in PlacedOf(named, free, first) :: x in Obs(named + free) + Controls
  {
    ObsAppend(named, free);
  }

  /** `__HandleParams` on a signature and such an order assembles the supplied options in the visiting order. */
  lemma {:induction false} HandlingByOrder(p: Prog, named: seq<string>, free: seq<string>, first: bool, call: Call, forceVerbose: bool, env: Env)
    requires Distinct(named + free)
    requires call.execute && call.verbose ==> Terminates(env.process.trace)
    ensures Handling(p, Bind(Obs(named + free) + Controls, call), OrderOf(named, first), call.execute, call.verbose, forceVerbose, env) ==
      match Assembly(p, Supplied(KeysOf(named, free, first), call), call.verbose, env.inputExists)
      case Err(e) => (Err(e), [])
      case Ok(a) => Finished(p, a, call.execute, call.verbose, forceVerbose, env.process)
  {
    var names := Obs(named + free) + Controls;
    var placed := PlacedOf(named, free, first);
    SignatureOrder(named, free, first);
    PlacedDeclaredNames(named, free, first);
    OrderedBind(names, placed, call);
    AssemblyOfArguments(p, Bind(placed, call), call.verbose, env.inputExists);
    PlacedArguments(named, free, first, call);
  }

  /**
    A front-end call is `__HandleParams` assembling exactly the options the
    call supplies, obabel's in signature order, the others' with the
    options their `ArgsOrder` names last.
   */
  lemma {:induction false} FrontEndAssembly(p: Prog, call: Call, env: Env)
    requires call.execute && call.verbose ==> Terminates(env.process.trace)
    requires Accepted(p, call)
    ensures Invoke(p, call, env) ==
      match Assembly(p, Supplied(PlacedKeys(p), call), call.verbose, env.inputExists)
      case Err(e) => (Err(e), [])
      case Ok(a) => Finished(p, a, call.execute, call.verbose, ForceVerbose(p, call.verbose), env.process)
  {
    KeysDistinct(p);
    HandlingByOrder(p, Named(p), Free(p), p == Obabel, call, ForceVerbose(p, call.verbose), env);
  }

  /** A bound call whose options assemble to a: the dictionary holds the stripped command, run when `Execute` is set. */
  lemma {:induction false} InvokeAssembled(p: Prog, call: Call, env: Env, a: Assembled, cmd: string)
    requires call.execute && call.verbose ==> Terminates(env.process.trace)
    requires Accepted(p, call)
    requires Assembly(p, Supplied(PlacedKeys(p), call), call.verbose, env.inputExists) == Ok(a)
    requires Strip(a.command) == cmd
    ensures var warnings := WarningEvents(a.warnings);
      Invoke(p, call, env) ==
        if !call.execute then (Ok(Build(ExecName(p), a.args, cmd, None, FuncName(p))), warnings)
        else
          var (run, events) := Execution(cmd, "OpenBabel", call.verbose, ForceVerbose(p, call.verbose), env.process);
          (if run.Err? then Err(run.error) else Ok(Build(ExecName(p), a.args, cmd, Some(run.value), FuncName(p))), warnings + events)
  {
    FrontEndAssembly(p, call, env);
  }

  /**
    A call Python cannot bind raises `TypeError` before anything is built,
    run or printed; a call that returns a dictionary was bound.
   */
  lemma {:induction false} BindingRefused(p: Prog, call: Call, env: Env)
    requires call.execute && call.verbose ==> Terminates(env.process.trace)
    ensures !Accepted(p, call) ==> Invoke(p, call, env).0.Err? && Invoke(p, call, env).0.error.TypeError? && Invoke(p, call, env).1 == []
    ensures Invoke(p, call, env).0.Ok? ==> Accepted(p, call)
  {
  }

  // ---------------------------------------------------------------------
  // Commands built from path options
  // ---------------------------------------------------------------------

  /** The assembly of program arguments that all render: their fragments, keys and messages. */
  lemma {:induction false} AssemblyRendered(p: Prog, xs: seq<Param>, cs: seq<Contribution>, verbose: bool, inputExists: bool)
    requires forall x | x in xs :: Contributes(x)
    requires |cs| == |xs| && forall i | 0 <= i < |xs| :: Contribute(p, xs[i], verbose) == Ok(cs[i])
    ensures Assembly(p, xs, verbose, inputExists) ==
      Ok(Assembled(ExecName(p) + " " + CommandTail(cs), ArgsMap(cs), Warnings(cs, inputExists)))
  {
    ArgumentsOfArguments(xs);
    var rs := Attempts(p, xs, verbose);
    assert forall i | 0 <= i < |xs| :: rs[i] == Ok(cs[i]);
    assert Collect(rs).value == cs;
    assert Contributions(p, xs, verbose) == Ok(cs);
  }

  /** `strip()` removes the one space after a string neither started nor ended by whitespace. */
  lemma {:induction false} StripTrailingSpace(s: string)
    requires s != [] && !IsSpace(s[0]) && !IsSpace(Last(s))
    ensures Strip(s + " ") == s
  {
    assert (s + " ")[..|s|] == s;
  }

  /** `OB_` followed by a key without an underscore loses exactly its prefix. */
  lemma {:induction false} KeyOfOb(key: string)
    requires '_' !in key
    ensures KeyOf(Ob(key)) == key
  {
    RemoveAllLeading("OB_", key, '_');
  }

  /** The options of an obabel conversion: input and output paths, and perhaps an input format. */
  function ConversionOptions(input: string, output: string, inputFormat: Option<string>): map<string, Option<Value>> {
    var files := map[Ob("InputFile") := Some(VStr(input)), Ob("OutputFile") := Some(VStr(output))];
    if inputFormat.Some? then files[Ob("InputFormat") := Some(VStr(inputFormat.value))] else files
  }

  /** Only the options among the keys that the call gives are supplied. */
  lemma {:induction false} SuppliedNone(keys: seq<string>, call: Call)
    requires forall k | k in keys :: Ob(k) !in call.options
    ensures Supplied(keys, call) == []
    decreases |keys|
  {
    if keys != [] {
      SuppliedNone(keys[..|keys| - 1], call);
    }
  }

  /** The names a conversion gives. */
  lemma {:induction false} ConversionNames(input: string, output: string, inputFormat: Option<string>, k: string)
    requires Ob(k) in ConversionOptions(input, output, inputFormat)
    ensures k == "InputFile" || k == "OutputFile" || k == "InputFormat"
  {
    ObInjective(k, "InputFile");
    ObInjective(k, "OutputFile");
    ObInjective(k, "InputFormat");
  }

  /** Python binds a conversion call: its three names are obabel's, and both paths are there. */
  lemma {:induction false} ConversionAccepted(input: string, output: string, inputFormat: Option<string>, call: Call)
    requires call.options == ConversionOptions(input, output, inputFormat)
    ensures Accepted(Obabel, call)
  {
    var keys := Keys(Obabel);
    assert keys[0] == "InputFile" && keys[1] == "OutputFile" && keys[2] == "InputFormat";
    forall name | name in call.options ensures name in Obs(keys) {
      assert name == Ob("InputFile") || name == Ob("OutputFile") || name == Ob("InputFormat");
      ObsMembership(keys, name[3..]);
    }
  }

  /** Obabel's free options after the input format. */
  lemma {:induction false} LaterObabelOptions()
    ensures forall k | k in Free(Obabel)[1..] :: k != "InputFile" && k != "OutputFile" && k != "InputFormat"
  {
  }

  /** The free options of a conversion that are supplied: the input format, if given. */
  lemma {:induction false} ConversionFree(input: string, output: string, inputFormat: Option<string>, call: Call)
    requires call.options == ConversionOptions(input, output, inputFormat)
    ensures Supplied(Free(Obabel), call) ==
      if inputFormat.Some? then [Param(Ob("InputFormat"), Some(VStr(inputFormat.value)))] else []
  {
    var later := Free(Obabel)[1..];
    assert Free(Obabel) == ["InputFormat"] + later;
    SuppliedAppend(["InputFormat"], later, call);
    LaterObabelOptions();
    forall k | k in later ensures Ob(k) !in call.options {
      if Ob(k) in call.options {
        ConversionNames(input, output, inputFormat, k);
      }
    }
    SuppliedNone(later, call);
  }

  /** What obabel's builder visits for a conversion: the input, the output, then the format if given. */
  lemma {:induction false} ConversionSupplied(input: string, output: string, inputFormat: Option<string>, call: Call)
    requires call.options == ConversionOptions(input, output, inputFormat)
    ensures Supplied(PlacedKeys(Obabel), call) ==
      [Param(Ob("InputFile"), Some(VStr(input))), Param(Ob("OutputFile"), Some(VStr(output)))] +
      (if inputFormat.Some? then [Param(Ob("InputFormat"), Some(VStr(inputFormat.value)))] else [])
  {
    var named := Named(Obabel);
    SuppliedAppend(named, Free(Obabel), call);
    ConversionFree(input, output, inputFormat, call);
    assert named == ["InputFile", "OutputFile"] && named[..1] == ["InputFile"] && named[..1][..0] == [];
    assert Supplied(named[..1], call) == [Param(Ob("InputFile"), Some(VStr(input)))];
    assert Supplied(named, call) == [Param(Ob("InputFile"), Some(VStr(input))), Param(Ob("OutputFile"), Some(VStr(output)))];
  }

  /** An option other than `OB_Verbose` renders its own value under its key. */
  lemma {:induction false} ContributeOption(p: Prog, key: string, v: Value, verbose: bool)
    requires '_' !in key && key != "Verbose"
    ensures Contribute(p, Param(Ob(key), Some(v)), verbose) ==
      match Fragment(p, key, v)
      case Err(e) => Err(e)
      case Ok(f) => Ok(Contribution(key, v, f))
  {
    KeyOfOb(key);
  }

  /** The obabel command of a conversion, before stripping. */
  function ConversionCommand(input: string, output: string, inputFormat: Option<string>): string {
    "obabel \"" + input + "\" -O \"" + output + "\"" + (if inputFormat.Some? then " -i " + inputFormat.value else "")
  }

  /** The `Args` dictionary of a conversion. */
  function ConversionArgs(input: string, output: string, inputFormat: Option<string>): map<string, string> {
    var files := map["InputFile" := "\"" + input + "\"", "OutputFile" := "-O \"" + output + "\""];
    if inputFormat.Some? then files["InputFormat" := "-i " + inputFormat.value] else files
  }

  /** One pass of the loop body on an option other than `OB_Verbose` whose value renders. */
  lemma {:induction false} AbsorbOption(p: Prog, a: Assembled, key: string, v: Value, verbose: bool, inputExists: bool)
    requires '_' !in key && key != "Verbose" && Fragment(p, key, v).Ok?
    ensures var f := Fragment(p, key, v).value;
      Absorb(p, a, Param(Ob(key), Some(v)), verbose, inputExists) ==
        Ok(Assembled(a.command + f + " ", a.args[key := f],
          if key == "InputFile" && !inputExists then a.warnings + [MissingInputMessage(v)] else a.warnings))
  {
    KeyOfOb(key);
    assert StartsWith(Ob(key), "OB_");
  }

  /** The command, dictionary and messages after a conversion's input path. */
  function AfterInput(input: string, inputExists: bool): Assembled {
    Assembled("obabel \"" + input + "\" ", map["InputFile" := "\"" + input + "\""],
      if inputExists then [] else [MissingInputMessage(VStr(input))])
  }

  /** The command, dictionary and messages after a conversion's output path. */
  function AfterOutput(input: string, output: string, inputExists: bool): Assembled {
    Assembled("obabel \"" + input + "\" -O \"" + output + "\" ",
      map["InputFile" := "\"" + input + "\"", "OutputFile" := "-O \"" + output + "\""],
      if inputExists then [] else [MissingInputMessage(VStr(input))])
  }

  /** Gluing the fragments of the input and output paths onto the executable. */
  lemma {:induction false} FilesCommand(input: string, output: string)
    ensures "obabel " + ("\"" + input + "\"") + " " == "obabel \"" + input + "\" "
    ensures "obabel \"" + input + "\" " + ("-O \"" + output + "\"") + " " == "obabel \"" + input + "\" -O \"" + output + "\" "
  {
  }

  lemma {:induction false} AbsorbInput(input: string, verbose: bool, inputExists: bool)
    ensures Absorb(Obabel, Assembled("obabel ", map[], []), Param(Ob("InputFile"), Some(VStr(input))), verbose, inputExists) ==
      Ok(AfterInput(input, inputExists))
  {
    var f := "\"" + input + "\"";
    InputFileFragment(Obabel, VStr(input));
    assert Fragment(Obabel, "InputFile", VStr(input)) == Ok(f);
    AbsorbOption(Obabel, Assembled("obabel ", map[], []), "InputFile", VStr(input), verbose, inputExists);
    assert [] + [MissingInputMessage(VStr(input))] == [MissingInputMessage(VStr(input))];
    FilesCommand(input, "");
  }

  lemma {:induction false} AbsorbOutput(input: string, output: string, verbose: bool, inputExists: bool)
    ensures Absorb(Obabel, AfterInput(input, inputExists), Param(Ob("OutputFile"), Some(VStr(output))), verbose, inputExists) ==
      Ok(AfterOutput(input, output, inputExists))
  {
    var f := "-O \"" + output + "\"";
    OutputFileFragment(Obabel, VStr(output));
    assert Fragment(Obabel, "OutputFile", VStr(output)) == Ok(f);
    AbsorbOption(Obabel, AfterInput(input, inputExists), "OutputFile", VStr(output), verbose, inputExists);
    FilesCommand(input, output);
  }

  /** Two passes of the loop body from a known start. */
  lemma {:induction false} AssemblyTwice(p: Prog, ps: seq<Param>, a0: Assembled, a1: Assembled, a2: Assembled, verbose: bool, inputExists: bool)
    requires |ps| >= 2 && Assembly(p, ps[..0], verbose, inputExists) == Ok(a0)
    requires Absorb(p, a0, ps[0], verbose, inputExists) == Ok(a1)
    requires Absorb(p, a1, ps[1], verbose, inputExists) == Ok(a2)
    ensures Assembly(p, ps[..2], verbose, inputExists) == Ok(a2)
  {
    AssemblyOnce(p, ps, 0, a0, a1, verbose, inputExists);
    AssemblyOnce(p, ps, 1, a1, a2, verbose, inputExists);
  }

  /** One pass of the loop body from a known state. */
  lemma {:induction false} AssemblyOnce(p: Prog, ps: seq<Param>, i: nat, a: Assembled, b: Assembled, verbose: bool, inputExists: bool)
    requires i < |ps| && Assembly(p, ps[..i], verbose, inputExists) == Ok(a)
    requires Absorb(p, a, ps[i], verbose, inputExists) == Ok(b)
    ensures Assembly(p, ps[..i + 1], verbose, inputExists) == Ok(b)
  {
    AssemblyStep(p, ps, i, verbose, inputExists);
  }

  /** One pass of the loop over an option the table renders as f. */
  lemma {:induction false} AssemblyOption(p: Prog, ps: seq<Param>, i: nat, a: Assembled, key: string, v: Value, f: string, verbose: bool, inputExists: bool)
    requires i < |ps| && ps[i] == Param(Ob(key), Some(v)) && Assembly(p, ps[..i], verbose, inputExists) == Ok(a)
    requires '_' !in key && key != "Verbose" && Fragment(p, key, v) == Ok(f)
    ensures Assembly(p, ps[..i + 1], verbose, inputExists) ==
      Ok(Assembled(a.command + f + " ", a.args[key := f],
        if key == "InputFile" && !inputExists then a.warnings + [MissingInputMessage(v)] else a.warnings))
  {
    AbsorbOption(p, a, key, v, verbose, inputExists);
    AssemblyOnce(p, ps, i, a, Absorb(p, a, ps[i], verbose, inputExists).value, verbose, inputExists);
  }

  /** The first two passes of the loop over options other than the input path. */
  lemma {:induction false} AssemblyTwoOptions(p: Prog, ps: seq<Param>, k1: string, v1: Value, f1: string, k2: string, v2: Value, f2: string,
                                            verbose: bool, inputExists: bool)
    requires |ps| >= 2 && ps[0] == Param(Ob(k1), Some(v1)) && ps[1] == Param(Ob(k2), Some(v2))
    requires '_' !in k1 && k1 !in {"Verbose", "InputFile"} && Fragment(p, k1, v1) == Ok(f1)
    requires '_' !in k2 && k2 !in {"Verbose", "InputFile"} && Fragment(p, k2, v2) == Ok(f2)
    ensures Assembly(p, ps[..2], verbose, inputExists) == Ok(Assembled(ExecName(p) + " " + f1 + " " + f2 + " ", map[k1 := f1][k2 := f2], []))
  {
    var a0 := Assembled(ExecName(p) + " ", map[], []);
    var a1 := Assembled(a0.command + f1 + " ", map[k1 := f1], []);
    var a2 := Assembled(a1.command + f2 + " ", map[k1 := f1][k2 := f2], []);
    AssemblyStart(p, ps, verbose, inputExists);
    AbsorbOption(p, a0, k1, v1, verbose, inputExists);
    AbsorbOption(p, a1, k2, v2, verbose, inputExists);
    AssemblyTwice(p, ps, a0, a1, a2, verbose, inputExists);
  }

  /** The loop over all of ps. */
  lemma {:induction false} AssemblyWhole(p: Prog, ps: seq<Param>, verbose: bool, inputExists: bool)
    ensures Assembly(p, ps[..|ps|], verbose, inputExists) == Assembly(p, ps, verbose, inputExists)
  {
    assert ps[..|ps|] == ps;
  }

  /** The last two passes of the loop: the input path, then one more option. */
  lemma {:induction false} AssemblyInputLast(p: Prog, ps: seq<Param>, i: nat, a: Assembled, input: string, f1: string, k: string, v: Value, f2: string,
                                           verbose: bool, inputExists: bool)
    requires i + 2 <= |ps| && ps[i] == Param(Ob("InputFile"), Some(VStr(input))) && ps[i + 1] == Param(Ob(k), Some(v))
    requires Assembly(p, ps[..i], verbose, inputExists) == Ok(a)
    requires Fragment(p, "InputFile", VStr(input)) == Ok(f1)
    requires '_' !in k && k !in {"Verbose", "InputFile"} && Fragment(p, k, v) == Ok(f2)
    ensures Assembly(p, ps[..i + 2], verbose, inputExists) ==
      Ok(Assembled(a.command + f1 + " " + f2 + " ", a.args["InputFile" := f1][k := f2],
        if inputExists then a.warnings else a.warnings + [MissingInputMessage(VStr(input))]))
  {
    var w := if inputExists then a.warnings else a.warnings + [MissingInputMessage(VStr(input))];
    var a1 := Assembled(a.command + f1 + " ", a.args["InputFile" := f1], w);
    var a2 := Assembled(a1.command + f2 + " ", a1.args[k := f2], w);
    AbsorbOption(p, a, "InputFile", VStr(input), verbose, inputExists);
    AssemblyOnce(p, ps, i, a, a1, verbose, inputExists);
    AbsorbOption(p, a1, k, v, verbose, inputExists);
    AssemblyOnce(p, ps, i + 1, a1, a2, verbose, inputExists);
  }

  /** The loop over the input and output options of a conversion. */
  lemma {:induction false} ConversionFiles(input: string, output: string, ps: seq<Param>, verbose: bool, inputExists: bool)
    requires |ps| >= 2 && ps[0] == Param(Ob("InputFile"), Some(VStr(input))) && ps[1] == Param(Ob("OutputFile"), Some(VStr(output)))
    ensures Assembly(Obabel, ps[..2], verbose, inputExists) == Ok(AfterOutput(input, output, inputExists))
  {
    AssemblyStart(Obabel, ps, verbose, inputExists);
    assert ExecName(Obabel) + " " == "obabel ";
    AbsorbInput(input, verbose, inputExists);
    AbsorbOutput(input, output, verbose, inputExists);
    AssemblyTwice(Obabel, ps, Assembled("obabel ", map[], []), AfterInput(input, inputExists), AfterOutput(input, output, inputExists), verbose, inputExists);
  }

  /** Appending the input format's fragment to the command that ends with the output path. */
  lemma {:induction false} FormatCommand(files: string, f: string)
    ensures files + " " + ("-i " + f) + " " == files + (" -i " + f) + " "
  {
  }

  lemma {:induction false} FormatFragment(f: string)
    ensures Fragment(Obabel, "InputFormat", VStr(f)) == Ok("-i " + f)
  {
    assert "-i " + f + "" == "-i " + f;
  }

  /** Without an input format, the loop ends after the two paths. */
  lemma {:induction false} FilesOnly(input: string, output: string, inputExists: bool)
    ensures AfterOutput(input, output, inputExists) ==
      Assembled(ConversionCommand(input, output, None) + " ", ConversionArgs(input, output, None),
        if inputExists then [] else [MissingInputMessage(VStr(input))])
  {
    var files := "obabel \"" + input + "\" -O \"" + output + "\"";
    assert files + "" == files;
  }

  /** The input format's fragment after the two paths. */
  lemma {:induction false} AbsorbFormat(input: string, output: string, f: string, verbose: bool, inputExists: bool)
    ensures Absorb(Obabel, AfterOutput(input, output, inputExists), Param(Ob("InputFormat"), Some(VStr(f))), verbose, inputExists) ==
      Ok(Assembled(ConversionCommand(input, output, Some(f)) + " ", ConversionArgs(input, output, Some(f)),
        if inputExists then [] else [MissingInputMessage(VStr(input))]))
  {
    FormatFragment(f);
    AbsorbOption(Obabel, AfterOutput(input, output, inputExists), "InputFormat", VStr(f), verbose, inputExists);
    var files := "obabel \"" + input + "\" -O \"" + output + "\"";
    assert AfterOutput(input, output, inputExists).command == files + " ";
    FormatCommand(files, f);
  }

  /** The loop over a conversion's parameters: the two paths, then the format if given. */
  lemma {:induction false} ConversionLoop(input: string, output: string, inputFormat: Option<string>, ps: seq<Param>, verbose: bool, inputExists: bool)
    requires |ps| == if inputFormat.Some? then 3 else 2
    requires ps[0] == Param(Ob("InputFile"), Some(VStr(input))) && ps[1] == Param(Ob("OutputFile"), Some(VStr(output)))
    requires inputFormat.Some? ==> ps[2] == Param(Ob("InputFormat"), Some(VStr(inputFormat.value)))
    ensures Assembly(Obabel, ps, verbose, inputExists) ==
      Ok(Assembled(ConversionCommand(input, output, inputFormat) + " ", ConversionArgs(input, output, inputFormat),
        if inputExists then [] else [MissingInputMessage(VStr(input))]))
  {
    ConversionFiles(input, output, ps, verbose, inputExists);
    if inputFormat.Some? {
      FormatLoop(input, output, inputFormat.value, ps, verbose, inputExists);
    } else {
      assert ps[..2] == ps;
      FilesOnly(input, output, inputExists);
    }
  }

  lemma {:induction false} FormatLoop(input: string, output: string, f: string, ps: seq<Param>, verbose: bool, inputExists: bool)
    requires |ps| == 3 && ps[2] == Param(Ob("InputFormat"), Some(VStr(f)))
    requires Assembly(Obabel, ps[..2], verbose, inputExists) == Ok(AfterOutput(input, output, inputExists))
    ensures Assembly(Obabel, ps, verbose, inputExists) ==
      Ok(Assembled(ConversionCommand(input, output, Some(f)) + " ", ConversionArgs(input, output, Some(f)),
        if inputExists then [] else [MissingInputMessage(VStr(input))]))
  {
    var b := Assembled(ConversionCommand(input, output, Some(f)) + " ", ConversionArgs(input, output, Some(f)),
      if inputExists then [] else [MissingInputMessage(VStr(input))]);
    assert ps[..3] == ps;
    AbsorbFormat(input, output, f, verbose, inputExists);
    AssemblyOnce(Obabel, ps, 2, AfterOutput(input, output, inputExists), b, verbose, inputExists);
  }

  /**
    obabel given an input path, an output path and perhaps an input format
    assembles `obabel "<input>" -O "<output>"`, then `-i <format>`; one
    message when the input file is missing.
   */
  lemma {:induction false} ConversionAssembly(input: string, output: string, inputFormat: Option<string>, call: Call, inputExists: bool)
    requires call.options == ConversionOptions(input, output, inputFormat)
    ensures Assembly(Obabel, Supplied(PlacedKeys(Obabel), call), call.verbose, inputExists) ==
      Ok(Assembled(ConversionCommand(input, output, inputFormat) + " ", ConversionArgs(input, output, inputFormat),
        if inputExists then [] else [MissingInputMessage(VStr(input))]))
  {
    ConversionSupplied(input, output, inputFormat, call);
    ConversionLoop(input, output, inputFormat, Supplied(PlacedKeys(Obabel), call), call.verbose, inputExists);
  }

  /** The conversion command neither starts nor ends with whitespace, so `strip()` only drops the space after it. */
  lemma {:induction false} ConversionStripped(input: string, output: string, inputFormat: Option<string>)
    requires inputFormat.Some? ==> inputFormat.value != [] && !IsSpace(Last(inputFormat.value))
    ensures Strip(ConversionCommand(input, output, inputFormat) + " ") == ConversionCommand(input, output, inputFormat)
  {
    var cmd := ConversionCommand(input, output, inputFormat);
    var files := "obabel \"" + input + "\" -O \"" + output + "\"";
    assert files[0] == 'o' && Last(files) == '"';
    if inputFormat.Some? {
      var tail := " -i " + inputFormat.value;
      assert cmd == files + tail;
      assert Last(cmd) == Last(tail) == Last(inputFormat.value);
    } else {
      assert cmd == files + "";
    }
    StripTrailingSpace(cmd);
  }

  /**
    `Obabel(InputFile=input, OutputFile=output[, InputFormat=format])`: the
    returned dictionary holds the command `obabel "<input>" -O "<output>"
    [-i <format>]` and the fragments under their keys; the command is run
    when `Execute` is set, echoing when `Verbose` is; a missing input file
    gives one message first.
   */
  lemma {:induction false} ObabelConversion(input: string, output: string, inputFormat: Option<string>, call: Call, env: Env)
    requires call.options == ConversionOptions(input, output, inputFormat)
    requires inputFormat.Some? ==> inputFormat.value != [] && !IsSpace(Last(inputFormat.value))
    requires call.execute && call.verbose ==> Terminates(env.process.trace)
    ensures var cmd := ConversionCommand(input, output, inputFormat);
      var args := ConversionArgs(input, output, inputFormat);
      var warnings := WarningEvents(if env.inputExists then [] else [MissingInputMessage(VStr(input))]);
      Invoke(Obabel, call, env) ==
        if !call.execute then (Ok(Build("obabel", args, cmd, None, "Obabel")), warnings)
        else
          var (run, events) := Execution(cmd, "OpenBabel", call.verbose, call.verbose, env.process);
          (if run.Err? then Err(run.error) else Ok(Build("obabel", args, cmd, Some(run.value), "Obabel")), warnings + events)
  {
    ConversionAccepted(input, output, inputFormat, call);
    ConversionAssembly(input, output, inputFormat, call, env.inputExists);
    ConversionStripped(input, output, inputFormat);
    var cmd := ConversionCommand(input, output, inputFormat);
    InvokeAssembled(Obabel, call, env, Assembled(cmd + " ", ConversionArgs(input, output, inputFormat),
      if env.inputExists then [] else [MissingInputMessage(VStr(input))]), cmd);
  }

  /** The parts of the example conversion, spelled out. */
  lemma {:induction false} ExampleParts()
    ensures ConversionOptions("a.sdf", "a.pdb", None) == map[Ob("InputFile") := Some(VStr("a.sdf")), Ob("OutputFile") := Some(VStr("a.pdb"))]
    ensures ConversionCommand("a.sdf", "a.pdb", None) == "obabel \"a.sdf\" -O \"a.pdb\""
    ensures ConversionArgs("a.sdf", "a.pdb", None) == map["InputFile" := "\"a.sdf\"", "OutputFile" := "-O \"a.pdb\""]
  {
    assert "\"" + "a.sdf" + "\"" == "\"a.sdf\"";
    assert "-O \"" + "a.pdb" + "\"" == "-O \"a.pdb\"";
  }

  /** `Obabel(OB_InputFile='a.sdf', OB_OutputFile='a.pdb')` builds `obabel "a.sdf" -O "a.pdb"` and runs nothing. */
  lemma {:induction false} ObabelExample(call: Call, env: Env)
    requires call.options == map[Ob("InputFile") := Some(VStr("a.sdf")), Ob("OutputFile") := Some(VStr("a.pdb"))]
    requires !call.execute
    ensures Invoke(Obabel, call, env).0 ==
      Ok(Build("obabel", map["InputFile" := "\"a.sdf\"", "OutputFile" := "-O \"a.pdb\""], "obabel \"a.sdf\" -O \"a.pdb\"", None, "Obabel"))
  {
    ExampleParts();
    ObabelConversion("a.sdf", "a.pdb", None, call, env);
  }

  /** `Obabel(OB_InputFile='a.sdf')`: the output path has no default, so Python refuses the call. */
  lemma {:induction false} ObabelWithoutOutput(call: Call, env: Env)
    requires call.options == map[Ob("InputFile") := Some(VStr("a.sdf"))]
    requires call.execute && call.verbose ==> Terminates(env.process.trace)
    ensures Invoke(Obabel, call, env) == (Err(TypeError("missing a required argument")), [])
  {
    var keys := Keys(Obabel);
    assert keys[0] == "InputFile";
    ObsMembership(keys, "InputFile");
    assert Ob("OutputFile")[3] == 'O' && Ob("InputFile")[3] == 'I';
    assert "OutputFile" in RequiredKeys(Obabel) && Ob("OutputFile") !in call.options;
  }
}
