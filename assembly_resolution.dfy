/**
 * `ServiceCollectionExtensions.ResolveAssemblies`: turns the `params object[] args`
 * of `AddMediator` into the assemblies to scan for handlers. The loaded-assembly
 * inventory that the code reads from `AppDomain.CurrentDomain.GetAssemblies()` is
 * a parameter here.
 */
module AssemblyResolution {
  import opened Wrappers
  import opened Seqs
  import opened Reflection

  /** One element of `args`, classified by its runtime type. */
  datatype Arg =
    | NullArg                         // a null element: neither `is Assembly` nor `is String`
    | AssemblyArg(assembly: Assembly)
    | StringArg(text: string)
    | OtherArg(runtimeType: TypeName) // any other object, such as a boxed 42

  /** The exception thrown for an argument list of any other shape. */
  datatype ArgumentException = ArgumentException(message: string)

  const InvalidArgumentsMessage: string :=
    "Invelid parameters for AddMediator(). Use: no argument, Assemblu[], or prefix strings."

  /** An assembly the no-argument form scans: not dynamic, and with a full name that is not null or white space. */
  predicate IsScannable(a: Assembly) {
    !a.isDynamic && !IsNullOrWhiteSpace(a.fullName)
  }

  /** The no-argument selection: every scannable assembly of the inventory, in inventory order. */
  function ScannableAssemblies(inventory: seq<Assembly>): seq<Assembly> {
    Filter(inventory, IsScannable)
  }

  /** Which way the name-prefix selection uses a match. The code excludes matching assemblies. */
  datatype PrefixPolicy = ExcludeMatching | IncludeMatching

  /** Some prefix is an ordinal prefix of `name`. */
  predicate StartsWithAny(name: string, prefixes: seq<string>) {
    exists k :: 0 <= k < |prefixes| && StartsWith(name, prefixes[k])
  }

  /** The test the name-prefix selection applies to one inventory assembly. */
  predicate PassesPrefixFilter(a: Assembly, prefixes: seq<string>, policy: PrefixPolicy) {
    && IsScannable(a)
    && match policy
       case ExcludeMatching => !StartsWithAny(a.fullName.value, prefixes)
       case IncludeMatching => StartsWithAny(a.fullName.value, prefixes)
  }

  function PrefixPredicate(prefixes: seq<string>, policy: PrefixPolicy): Assembly -> bool {
    a => PassesPrefixFilter(a, prefixes, policy)
  }

  /** The name-prefix selection over the inventory, in inventory order. */
  function PrefixFiltered(inventory: seq<Assembly>, prefixes: seq<string>, policy: PrefixPolicy): seq<Assembly> {
    Filter(inventory, PrefixPredicate(prefixes, policy))
  }

  /** `args.All(a => a is Assembly)`. */
  predicate AllAssemblies(items: seq<Arg>) {
    forall k :: 0 <= k < |items| ==> items[k].AssemblyArg?
  }

  /** `args.All(a => a is String)`. */
  predicate AllStrings(items: seq<Arg>) {
    forall k :: 0 <= k < |items| ==> items[k].StringArg?
  }

  /** `args.Cast<Assembly>().ToArray()`. */
  function CastAssemblies(items: seq<Arg>): seq<Assembly>
    requires AllAssemblies(items)
  {
    seq(|items|, k requires 0 <= k < |items| => items[k].assembly)
  }

  /** `args.Cast<String>().ToArray()`. */
  function CastStrings(items: seq<Arg>): seq<string>
    requires AllStrings(items)
  {
    seq(|items|, k requires 0 <= k < |items| => items[k].text)
  }

  /**
   * `ResolveAssemblies(args)`; `None` is a null `args` array. The tests run in the
   * code's order, so a non-empty list of assemblies never reaches the string test.
   */
  function ResolveAssemblies(args: Option<seq<Arg>>, inventory: seq<Assembly>): Result<seq<Assembly>, ArgumentException> {
    if args.None? || |args.value| == 0 then
      Ok(ScannableAssemblies(inventory))
    else if AllAssemblies(args.value) then
      Ok(CastAssemblies(args.value))
    else if AllStrings(args.value) then
      Ok(PrefixFiltered(inventory, CastStrings(args.value), ExcludeMatching))
    else
      Err(ArgumentException(InvalidArgumentsMessage))
  }

  /** The argument list a caller writes when passing these assemblies. */
  function AssemblyArgs(assemblies: seq<Assembly>): (r: seq<Arg>)
    ensures AllAssemblies(r)
  {
    seq(|assemblies|, k requires 0 <= k < |assemblies| => AssemblyArg(assemblies[k]))
  }

  /** The argument list a caller writes when passing these prefixes. */
  function StringArgs(prefixes: seq<string>): (r: seq<Arg>)
    ensures AllStrings(r)
  {
    seq(|prefixes|, k requires 0 <= k < |prefixes| => StringArg(prefixes[k]))
  }

  /**
   * With a null or empty `args`, the selection is exactly the scannable
   * assemblies of the inventory: it keeps their inventory order and their
   * multiplicity, and drops every other assembly.
   */
  lemma ResolveWithoutArguments(args: Option<seq<Arg>>, inventory: seq<Assembly>)
    requires args == None || args == Some([])
    ensures ResolveAssemblies(args, inventory).Ok?
    ensures IsSubsequence(ResolveAssemblies(args, inventory).value, inventory)
    ensures forall a :: multiset(ResolveAssemblies(args, inventory).value)[a] ==
                        if IsScannable(a) then multiset(inventory)[a] else 0
  {
    FilterIsSubsequence(inventory, IsScannable);
    FilterMultiset(inventory, IsScannable);
  }

  /**
   * With a non-empty list of assemblies, the selection is that list itself,
   * in the same order and unfiltered: dynamic, unnamed and repeated entries stay.
   */
  lemma ResolveExplicitAssemblies(assemblies: seq<Assembly>, inventory: seq<Assembly>)
    requires |assemblies| > 0
    ensures ResolveAssemblies(Some(AssemblyArgs(assemblies)), inventory) == Ok(assemblies)
  {
    assert CastAssemblies(AssemblyArgs(assemblies)) == assemblies;
  }

  /**
   * With a non-empty list of prefix strings, the selection is the no-argument
   * selection minus every assembly whose name starts with one of the prefixes:
   * an order-preserving subsequence of it, in which every kept assembly keeps
   * its multiplicity.
   */
  lemma ResolvePrefixes(prefixes: seq<string>, inventory: seq<Assembly>)
    requires |prefixes| > 0
    ensures ResolveAssemblies(Some(StringArgs(prefixes)), inventory).Ok?
    ensures IsSubsequence(ResolveAssemblies(Some(StringArgs(prefixes)), inventory).value, ScannableAssemblies(inventory))
    ensures forall a :: multiset(ResolveAssemblies(Some(StringArgs(prefixes)), inventory).value)[a] ==
                        if IsScannable(a) && !StartsWithAny(a.fullName.value, prefixes) then multiset(inventory)[a] else 0
    ensures forall a, k :: a in ResolveAssemblies(Some(StringArgs(prefixes)), inventory).value && 0 <= k < |prefixes| ==>
                           !StartsWith(a.fullName.value, prefixes[k])
  {
    var items := StringArgs(prefixes);
    assert items[0].StringArg?;
    assert !AllAssemblies(items);
    assert CastStrings(items) == prefixes;
    var p := PrefixPredicate(prefixes, ExcludeMatching);
    FilterStrongerIsSubsequence(inventory, IsScannable, p);
    FilterMultiset(inventory, p);
  }

  /**
   * Every other shape of `args` throws `ArgumentException`, and only those do:
   * a non-empty list that is neither all assemblies nor all strings.
   */
  lemma ResolveRejects(args: Option<seq<Arg>>, inventory: seq<Assembly>)
    ensures ResolveAssemblies(args, inventory).Err? <==>
            args.Some? && |args.value| > 0 && !AllAssemblies(args.value) && !AllStrings(args.value)
    ensures ResolveAssemblies(args, inventory).Err? ==>
            ResolveAssemblies(args, inventory).error == ArgumentException(InvalidArgumentsMessage)
  {
  }

  /** A null element, or an element that is neither an assembly nor a string (such as 42), makes the call throw. */
  lemma ResolveRejectsForeignElement(items: seq<Arg>, k: int, inventory: seq<Assembly>)
    requires 0 <= k < |items| && (items[k].NullArg? || items[k].OtherArg?)
    ensures ResolveAssemblies(Some(items), inventory) == Err(ArgumentException(InvalidArgumentsMessage))
  {
  }

  /** A list mixing assemblies and strings makes the call throw. */
  lemma ResolveRejectsMixedElements(items: seq<Arg>, i: int, j: int, inventory: seq<Assembly>)
    requires 0 <= i < |items| && 0 <= j < |items| && items[i].AssemblyArg? && items[j].StringArg?
    ensures ResolveAssemblies(Some(items), inventory) == Err(ArgumentException(InvalidArgumentsMessage))
  {
  }

  /**
   * The two polarities split the no-argument selection between them: each
   * scannable assembly goes to exactly one side, and both sides keep inventory order.
   */
  lemma PrefixPoliciesPartition(inventory: seq<Assembly>, prefixes: seq<string>)
    ensures multiset(PrefixFiltered(inventory, prefixes, ExcludeMatching)) +
            multiset(PrefixFiltered(inventory, prefixes, IncludeMatching)) ==
            multiset(ScannableAssemblies(inventory))
    ensures IsSubsequence(PrefixFiltered(inventory, prefixes, ExcludeMatching), ScannableAssemblies(inventory))
    ensures IsSubsequence(PrefixFiltered(inventory, prefixes, IncludeMatching), ScannableAssemblies(inventory))
  {
    var ex := PrefixFiltered(inventory, prefixes, ExcludeMatching);
    var inc := PrefixFiltered(inventory, prefixes, IncludeMatching);
    var all := ScannableAssemblies(inventory);
    FilterMultiset(inventory, IsScannable);
    FilterMultiset(inventory, PrefixPredicate(prefixes, ExcludeMatching));
    FilterMultiset(inventory, PrefixPredicate(prefixes, IncludeMatching));
    forall a ensures (multiset(ex) + multiset(inc))[a] == multiset(all)[a] {
    }
    FilterStrongerIsSubsequence(inventory, IsScannable, PrefixPredicate(prefixes, ExcludeMatching));
    FilterStrongerIsSubsequence(inventory, IsScannable, PrefixPredicate(prefixes, IncludeMatching));
  }

  /**
   * `AddMediator("Foo.")` over an inventory holding `Foo.Handlers` and
   * `Bar.Handlers` scans only `Bar.Handlers`: the matching assembly is the one
   * left out.
   */
  lemma PrefixSelectionExample()
    ensures var bar := Assembly(Some("Bar.Handlers"), false, []);
            ResolveAssemblies(Some([StringArg("Foo.")]), [Assembly(Some("Foo.Handlers"), false, []), bar]) == Ok([bar])
  {
    var foo := Assembly(Some("Foo.Handlers"), false, []);
    var bar := Assembly(Some("Bar.Handlers"), false, []);
    var items := [StringArg("Foo.")];
    var p := PrefixPredicate(["Foo."], ExcludeMatching);
    assert items[0] == StringArg("Foo.") && |items| == 1;
    assert !AllAssemblies(items) && AllStrings(items) && CastStrings(items) == ["Foo."];
    assert StartsWith(foo.fullName.value, ["Foo."][0]) by { assert "Foo." == "Foo.Handlers"[..4]; }
    assert !StartsWithAny(bar.fullName.value, ["Foo."]) by { assert "Bar.Handlers"[0] != "Foo."[0]; }
    assert !IsNullOrWhiteSpace(foo.fullName) by { assert !IsWhiteSpace(foo.fullName.value[0]); }
    assert !IsNullOrWhiteSpace(bar.fullName) by { assert !IsWhiteSpace(bar.fullName.value[0]); }
    assert !p(foo) && p(bar);
    assert [foo, bar][1..] == [bar];
    assert Filter([bar], p) == [bar] + Filter([], p);
    assert Filter([foo, bar], p) == [bar];
    assert ResolveAssemblies(Some(items), [foo, bar]) == Ok(PrefixFiltered([foo, bar], ["Foo."], ExcludeMatching));
  }
}
