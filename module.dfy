/**
 * Module descriptors: a named unit of work, the modules it needs, the modules
 * that need it, and its init function.  Construction scans both lists and
 * throws on the first null entry.
 */
module Modules {
  import opened Wrappers

  /** A module's identity: distinct module objects have distinct ids. */
  type ModuleId = nat

  /** A handle on a module's init function; the function itself is opaque here. */
  type InitHandle = nat

  /** An entry of a needs or neededBy list as passed in: a module reference, or null. */
  type ModuleRef = Option<ModuleId>

  datatype Module = Module(
    id: ModuleId,
    name: string,
    needs: seq<ModuleId>,
    neededBy: seq<ModuleId>,
    init: InitHandle)

  // ---- decimal rendering of the 1-based index in error messages ----

  function DigitChar(d: nat): (c: char)
    requires d < 10
    ensures '0' <= c <= '9' && c as int - '0' as int == d
  {
    ('0' as int + d) as char
  }

  /** n written in base 10 with no leading zeros, as a template literal renders it. */
  function Decimal(n: nat): (s: string)
    ensures |s| >= 1
    ensures forall i :: 0 <= i < |s| ==> '0' <= s[i] <= '9'
    ensures s[0] == '0' ==> n == 0
  {
    if n < 10 then [DigitChar(n)] else Decimal(n / 10) + [DigitChar(n % 10)]
  }

  /** The value of a string of decimal digits. */
  function ParseDecimal(s: string): (n: nat)
    requires forall i :: 0 <= i < |s| ==> '0' <= s[i] <= '9'
  {
    if s == [] then 0
    else 10 * ParseDecimal(s[..|s| - 1]) + (s[|s| - 1] as int - '0' as int)
  }

  /** Reading the rendered index back gives the index. */
  lemma {:induction false} DecimalRoundTrip(n: nat)
    ensures ParseDecimal(Decimal(n)) == n
  {
    var s := Decimal(n);
    if n >= 10 {
      DecimalRoundTrip(n / 10);
      assert s[..|s| - 1] == Decimal(n / 10);
    }
  }

  /** Distinct indices render differently. */
  lemma DecimalInjective(a: nat, b: nat)
    requires Decimal(a) == Decimal(b)
    ensures a == b
  {
    DecimalRoundTrip(a);
    DecimalRoundTrip(b);
  }

  // ---- construction ----

  function NullDependencyMessage(name: string, k: nat): string {
    "module " + name + " has null dependency (number " + Decimal(k) + ")"
  }

  /** The source spells this message "dependendant"; kept as written. */
  function NullDependantMessage(name: string, k: nat): string {
    "module " + name + " has null dependendant (number " + Decimal(k) + ")"
  }

  predicate NoNull(refs: seq<ModuleRef>) {
    forall i :: 0 <= i < |refs| ==> refs[i].Some?
  }

  /** i is the index of the first null entry of refs. */
  predicate IsFirstNull(refs: seq<ModuleRef>, i: int) {
    0 <= i < |refs| && refs[i].None? && forall j :: 0 <= j < i ==> refs[j].Some?
  }

  /** The index of the first null entry at or after `from`, if there is one. */
  function FirstNullFrom(refs: seq<ModuleRef>, from: nat): (r: Option<nat>)
    requires from <= |refs|
    ensures r.None? ==> forall j :: from <= j < |refs| ==> refs[j].Some?
    ensures r.Some? ==> from <= r.value < |refs| && refs[r.value].None?
    ensures r.Some? ==> forall j :: from <= j < r.value ==> refs[j].Some?
    decreases |refs| - from
  {
    if from == |refs| then None
    else if refs[from].None? then Some(from)
    else FirstNullFrom(refs, from + 1)
  }

  function Unwrap(refs: seq<ModuleRef>): (ids: seq<ModuleId>)
    requires NoNull(refs)
    ensures |ids| == |refs| && forall i :: 0 <= i < |refs| ==> refs[i] == Some(ids[i])
  {
    seq(|refs|, i requires 0 <= i < |refs| => refs[i].value)
  }

  /**
   * What `new Module(name, needs, neededBy, init)` produces: the module, or
   * the message it throws for the first null entry, needs checked first.
   */
  function Construct(id: ModuleId, name: string, needs: seq<ModuleRef>, neededBy: seq<ModuleRef>, init: InitHandle)
    : (r: Result<Module, string>)
    ensures forall i :: IsFirstNull(needs, i) ==> r == Failure(NullDependencyMessage(name, i + 1))
    ensures forall i :: NoNull(needs) && IsFirstNull(neededBy, i) ==> r == Failure(NullDependantMessage(name, i + 1))
    ensures NoNull(needs) && NoNull(neededBy) ==>
      r.Success? && r.value.id == id && r.value.name == name && r.value.init == init
      && |r.value.needs| == |needs| && |r.value.neededBy| == |neededBy|
      && (forall i :: 0 <= i < |needs| ==> needs[i] == Some(r.value.needs[i]))
      && (forall i :: 0 <= i < |neededBy| ==> neededBy[i] == Some(r.value.neededBy[i]))
    ensures r.Success? <==> NoNull(needs) && NoNull(neededBy)
  {
    match FirstNullFrom(needs, 0)
    case Some(i) => Failure(NullDependencyMessage(name, i + 1))
    case None =>
      match FirstNullFrom(neededBy, 0)
      case Some(i) => Failure(NullDependantMessage(name, i + 1))
      case None => Success(Module(id, name, Unwrap(needs), Unwrap(neededBy), init))
  }

  /** The Module constructor: two scans that throw on the first null entry. */
  method NewModule(id: ModuleId, name: string, needs: seq<ModuleRef>, neededBy: seq<ModuleRef>, init: InitHandle)
    returns (r: Result<Module, string>)
    ensures r == Construct(id, name, needs, neededBy, init)
  {
    var i := 0;
    while i < |needs|
      invariant 0 <= i <= |needs|
      invariant forall j :: 0 <= j < i ==> needs[j].Some?
    {
      if needs[i].None? {
        assert IsFirstNull(needs, i);
        return Failure(NullDependencyMessage(name, i + 1));
      }
      i := i + 1;
    }
    i := 0;
    while i < |neededBy|
      invariant 0 <= i <= |neededBy|
      invariant forall j :: 0 <= j < i ==> neededBy[j].Some?
    {
      if neededBy[i].None? {
        assert IsFirstNull(neededBy, i);
        return Failure(NullDependantMessage(name, i + 1));
      }
      i := i + 1;
    }
    r := Success(Module(id, name, Unwrap(needs), Unwrap(neededBy), init));
  }

  /** define(name, needs, neededBy, init) is `new Module` with the same arguments. */
  method Define(id: ModuleId, name: string, needs: seq<ModuleRef>, neededBy: seq<ModuleRef>, init: InitHandle)
    returns (r: Result<Module, string>)
    ensures r == Construct(id, name, needs, neededBy, init)
  {
    r := NewModule(id, name, needs, neededBy, init);
  }

  /** A module prints as its name. */
  function ToString(m: Module): (s: string)
    ensures s == m.name
  {
    m.name
  }

  /** A module that was constructed prints as the name it was given. */
  lemma ConstructedPrintsName(id: ModuleId, name: string, needs: seq<ModuleRef>, neededBy: seq<ModuleRef>, init: InitHandle)
    requires Construct(id, name, needs, neededBy, init).Success?
    ensures ToString(Construct(id, name, needs, neededBy, init).value) == name
  {
  }

  /**
   * The two messages tell the lists apart, and each names the index it was
   * given: equal messages come from the same list and the same index.
   */
  lemma MessagesIdentifyEntry(name: string, k1: nat, k2: nat)
    ensures NullDependencyMessage(name, k1) != NullDependantMessage(name, k2)
    ensures NullDependencyMessage(name, k1) == NullDependencyMessage(name, k2) ==> k1 == k2
    ensures NullDependantMessage(name, k1) == NullDependantMessage(name, k2) ==> k1 == k2
  {
    var p1 := "module " + name + " has null dependency (number ";
    var p2 := "module " + name + " has null dependendant (number ";
    var at := |"module " + name + " has null dependen"|;
    assert NullDependencyMessage(name, k1)[at] == p1[at] == 'c';
    assert NullDependantMessage(name, k2)[at] == p2[at] == 'd';
    if NullDependencyMessage(name, k1) == NullDependencyMessage(name, k2) {
      SameFrameSameIndex(p1, k1, k2);
    }
    if NullDependantMessage(name, k1) == NullDependantMessage(name, k2) {
      SameFrameSameIndex(p2, k1, k2);
    }
  }

  lemma SameFrameSameIndex(prefix: string, k1: nat, k2: nat)
    requires prefix + Decimal(k1) + ")" == prefix + Decimal(k2) + ")"
    ensures k1 == k2
  {
    var m1 := prefix + Decimal(k1) + ")";
    var m2 := prefix + Decimal(k2) + ")";
    assert Decimal(k1) == m1[|prefix|..|m1| - 1];
    assert Decimal(k2) == m2[|prefix|..|m2| - 1];
    DecimalInjective(k1, k2);
  }
}
