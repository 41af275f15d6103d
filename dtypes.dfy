/**
 * The C-type name registry of `dtypes.py`: `DTypeRegistry` keeps two
 * dictionaries, `name_to_dtype` (C type name to numpy dtype) and
 * `dtype_to_name` (dtype, or the text `str(dtype)`, to a C type name).
 * `get_or_register_dtype` looks names up or registers them, updating both
 * dictionaries in place; `dtype_to_ctype` is the reverse lookup.
 */
module DTypes {
  import opened Wrappers

  /**
   * A numpy dtype object.  `kind` is what dtype equality and `str()` see;
   * `ident` tells apart distinct objects that compare equal.
   */
  datatype Dtype = Dtype(kind: string, ident: int)

  /** Keys of `dtype_to_name`: a dtype (hashed by equality) or the string `str(dtype)`. */
  datatype Key = ByDtype(kind: string) | ByStr(text: string)

  /** The two dictionaries of a registry. */
  datatype Tables = Tables(nameToDtype: map<string, Dtype>, dtypeToName: map<Key, string>)

  /** `c_names`: a single string or a list of strings. */
  datatype CNames = OneName(name: string) | Names(list: seq<string>)

  /**
   * Errors: KeyError; `single_valued`'s two failures, the ValueError of no
   * names and the AssertionError of names bound to different dtypes (as the
   * default interpreter runs it, with assertions on); RuntimeError;
   * IndexError on `c_names[0]`.
   */
  datatype RegError = UnknownName(name: string) | NotSingleValued | NameTaken(name: string) | NoNames
                    | AlreadyRegistered

  datatype Outcome = Returned(dtype: Dtype) | Raised(err: RegError)

  /** The dictionaries after a call, and what the call returned or raised. */
  datatype Step = Step(tables: Tables, out: Outcome)

  /** The outcome of `dtype_to_ctype`: a C type name, or one of its two ValueErrors. */
  datatype CtypeResult = CType(name: string) | NoneGiven | Unmapped

  /** A lone string stands for the one-element list holding it. */
  function AsList(c: CNames): (r: seq<string>)
    ensures c.OneName? ==> r == [c.name]
    ensures c.Names? ==> r == c.list
  {
    match c
    case OneName(n) => [n]
    case Names(l) => l
  }

  /**
   * What the registry keeps true: a dtype key names a C type bound to an
   * equal dtype, and the dtype's `str()` key is present beside it.
   */
  ghost predicate Consistent(t: Tables)
  {
    forall k :: k in t.dtypeToName && k.ByDtype? ==>
      t.dtypeToName[k] in t.nameToDtype && t.nameToDtype[t.dtypeToName[k]].kind == k.kind &&
      ByStr(k.kind) in t.dtypeToName
  }

  /** No partial registration has happened: every bound name's dtype has a dtype key. */
  ghost predicate Complete(t: Tables)
  {
    forall nm :: nm in t.nameToDtype ==> ByDtype(t.nameToDtype[nm].kind) in t.dtypeToName
  }

  // ------------------------------------------------------------ lookups

  /** The comparison loop of `single_valued` after its first item. */
  function AgreeWith(n2d: map<string, Dtype>, rest: seq<string>, first: Dtype): (r: Outcome)
    ensures r.Returned? ==> r.dtype == first
  {
    if rest == [] then Returned(first)
    else if rest[0] !in n2d then Raised(UnknownName(rest[0]))
    else if n2d[rest[0]].kind != first.kind then Raised(NotSingleValued)
    else AgreeWith(n2d, rest[1..], first)
  }

  /** `single_valued(name_to_dtype[name] for name in c_names)`. */
  function SingleValued(n2d: map<string, Dtype>, names: seq<string>): (r: Outcome)
    ensures r.Returned? ==> names != [] && names[0] in n2d && r.dtype == n2d[names[0]]
  {
    if names == [] then Raised(NotSingleValued)
    else if names[0] !in n2d then Raised(UnknownName(names[0]))
    else AgreeWith(n2d, names[1..], n2d[names[0]])
  }

  /** All of `names` are bound, to dtypes equal to `d`. */
  ghost predicate AllBoundTo(n2d: map<string, Dtype>, names: seq<string>, d: Dtype)
  {
    forall i :: 0 <= i < |names| ==> names[i] in n2d && n2d[names[i]].kind == d.kind
  }

  lemma {:induction false} AgreeWithIff(n2d: map<string, Dtype>, rest: seq<string>, first: Dtype)
    ensures AgreeWith(n2d, rest, first).Returned? <==> AllBoundTo(n2d, rest, first)
    decreases |rest|
  {
    if rest != [] && rest[0] in n2d && n2d[rest[0]].kind == first.kind {
      AgreeWithIff(n2d, rest[1..], first);
      assert forall i :: 0 < i < |rest| ==> rest[i] == rest[1..][i - 1];
    }
  }

  /**
   * A lookup (`dtype=None`) changes neither dictionary, and returns the
   * dtype of the first name exactly when there is a first name and every
   * name is bound to a dtype equal to it.
   */
  lemma LookupIff(t: Tables, names: CNames)
    ensures GetOrRegister(t, names, None).tables == t
    ensures var l := AsList(names);
            GetOrRegister(t, names, None).out.Returned? <==>
              l != [] && l[0] in t.nameToDtype && AllBoundTo(t.nameToDtype, l, t.nameToDtype[l[0]])
    ensures GetOrRegister(t, names, None).out.Returned? ==>
              GetOrRegister(t, names, None).out.dtype == t.nameToDtype[AsList(names)[0]]
  {
    var l := AsList(names);
    if l != [] && l[0] in t.nameToDtype {
      var first := t.nameToDtype[l[0]];
      AgreeWithIff(t.nameToDtype, l[1..], first);
      assert forall i :: 0 < i < |l| ==> l[i] == l[1..][i - 1];
    }
  }

  // ------------------------------------------------------------ registration

  /** The names loop of `get_or_register_dtype`: the grown dictionary and the first conflicting name. */
  datatype Added = Added(n2d: map<string, Dtype>, conflict: Option<string>)

  /**
   * Binds every unbound name to `d`, stopping at the first name bound to a
   * dtype that is not equal to `d`.  Bound names are never rebound.
   */
  function AddNames(n2d: map<string, Dtype>, names: seq<string>, d: Dtype): (r: Added)
    ensures forall nm :: nm in n2d ==> nm in r.n2d && r.n2d[nm] == n2d[nm]
    ensures forall nm :: nm in r.n2d && nm !in n2d ==> nm in names && r.n2d[nm] == d
    ensures r.conflict.None? ==> AllBoundTo(r.n2d, names, d)
    ensures r.conflict.Some? ==>
              exists i :: 0 <= i < |names| && names[i] == r.conflict.value &&
                          names[i] in n2d && n2d[names[i]].kind != d.kind &&
                          AllBoundTo(r.n2d, names[..i], d)
    decreases |names|
  {
    if names == [] then Added(n2d, None)
    else if names[0] in n2d then
      if n2d[names[0]].kind != d.kind then
        var r := Added(n2d, Some(names[0]));
        assert names[..0] == [];
        r
      else
        var r := AddNames(n2d, names[1..], d);
        AddNamesCons(n2d, names, d, r);
        r
    else
      var r := AddNames(n2d[names[0] := d], names[1..], d);
      AddNamesCons(n2d[names[0] := d], names, d, r);
      r
  }

  /** `AddNames` from position `i` of the names, unfolded once. */
  lemma AddNamesAt(n2d: map<string, Dtype>, names: seq<string>, i: nat, d: Dtype)
    requires i < |names|
    ensures AddNames(n2d, names[i..], d) ==
              if names[i] !in n2d then AddNames(n2d[names[i] := d], names[i + 1..], d)
              else if n2d[names[i]].kind != d.kind then Added(n2d, Some(names[i]))
              else AddNames(n2d, names[i + 1..], d)
  {
    assert names[i..][1..] == names[i + 1..];
  }

  /** The step of `AddNames` past a first name bound to the kind: a conflict further on is one in `names`. */
  lemma AddNamesCons(n2d: map<string, Dtype>, names: seq<string>, d: Dtype, r: Added)
    requires names != [] && names[0] in n2d && n2d[names[0]].kind == d.kind
    requires forall nm :: nm in n2d ==> nm in r.n2d && r.n2d[nm] == n2d[nm]
    requires r.conflict.None? ==> AllBoundTo(r.n2d, names[1..], d)
    requires r.conflict.Some? ==>
               exists i :: 0 <= i < |names[1..]| && names[1..][i] == r.conflict.value &&
                           names[1..][i] in n2d && n2d[names[1..][i]].kind != d.kind &&
                           AllBoundTo(r.n2d, names[1..][..i], d)
    ensures r.conflict.None? ==> AllBoundTo(r.n2d, names, d)
    ensures r.conflict.Some? ==>
              exists i :: 0 <= i < |names| && names[i] == r.conflict.value &&
                          names[i] in n2d && n2d[names[i]].kind != d.kind &&
                          AllBoundTo(r.n2d, names[..i], d)
  {
    assert forall i :: 0 < i < |names| ==> names[i] == names[1..][i - 1];
    if r.conflict.Some? {
      var j :| 0 <= j < |names[1..]| && names[1..][j] == r.conflict.value &&
               names[1..][j] in n2d && n2d[names[1..][j]].kind != d.kind &&
               AllBoundTo(r.n2d, names[1..][..j], d);
      assert names[..j + 1] == [names[0]] + names[1..][..j];
      assert names[j + 1] == names[1..][j];
    }
  }

  /**
   * `get_or_register_dtype(c_names, dtype)` for a dtype: an equal dtype
   * seen before is replaced by the stored object; the names are bound;
   * a new dtype gets its dtype key and, when absent, its `str()` key,
   * both naming the first C name.
   */
  function Register(t: Tables, names: seq<string>, d: Dtype): (r: Step)
    requires Consistent(t)
  {
    var existed := ByDtype(d.kind) in t.dtypeToName;
    var dt := if existed then t.nameToDtype[t.dtypeToName[ByDtype(d.kind)]] else d;
    var added := AddNames(t.nameToDtype, names, dt);
    if added.conflict.Some? then
      Step(Tables(added.n2d, t.dtypeToName), Raised(NameTaken(added.conflict.value)))
    else if !existed && names == [] then
      Step(Tables(added.n2d, t.dtypeToName), Raised(NoNames))
    else
      var d2n := if existed then t.dtypeToName else t.dtypeToName[ByDtype(dt.kind) := names[0]];
      if ByStr(dt.kind) in d2n then Step(Tables(added.n2d, d2n), Returned(dt))
      else if names == [] then Step(Tables(added.n2d, d2n), Raised(NoNames))
      else Step(Tables(added.n2d, d2n[ByStr(dt.kind) := names[0]]), Returned(dt))
  }

  /** `get_or_register_dtype(c_names, dtype)`: a lookup when `dtype` is None, a registration otherwise. */
  function GetOrRegister(t: Tables, names: CNames, dtype: Option<Dtype>): Step
    requires dtype.Some? ==> Consistent(t)
  {
    if dtype.None? then Step(t, SingleValued(t.nameToDtype, AsList(names)))
    else Register(t, AsList(names), dtype.value)
  }

  /** Whatever the outcome, entries already present keep their values. */
  ghost predicate Grows(t: Tables, u: Tables)
  {
    (forall nm :: nm in t.nameToDtype ==> nm in u.nameToDtype && u.nameToDtype[nm] == t.nameToDtype[nm]) &&
    (forall k :: k in t.dtypeToName ==> k in u.dtypeToName && u.dtypeToName[k] == t.dtypeToName[k])
  }

  /** Every call, failed or not, keeps the registry consistent and only adds entries. */
  lemma RegisterKeepsConsistent(t: Tables, names: seq<string>, d: Dtype)
    requires Consistent(t)
    ensures Consistent(Register(t, names, d).tables)
    ensures Grows(t, Register(t, names, d).tables)
  {
    var existed := ByDtype(d.kind) in t.dtypeToName;
    var dt := if existed then t.nameToDtype[t.dtypeToName[ByDtype(d.kind)]] else d;
    var added := AddNames(t.nameToDtype, names, dt);
    var u := Register(t, names, d).tables;
    if added.conflict.None? && names != [] {
      assert names[0] in added.n2d && added.n2d[names[0]].kind == dt.kind;
    }
    forall k | k in u.dtypeToName && k.ByDtype?
      ensures u.dtypeToName[k] in u.nameToDtype && u.nameToDtype[u.dtypeToName[k]].kind == k.kind
      ensures ByStr(k.kind) in u.dtypeToName
    {
      if k in t.dtypeToName {
        assert t.dtypeToName[k] in t.nameToDtype;
      }
    }
  }

  /**
   * After a successful registration every name is bound to a dtype equal
   * to the one returned, which is equal to the one given; names that were
   * unbound are bound to the returned object itself.
   */
  lemma RegisterBindsNames(t: Tables, names: seq<string>, d: Dtype)
    requires Consistent(t)
    requires Register(t, names, d).out.Returned?
    ensures var r := Register(t, names, d);
            r.out.dtype.kind == d.kind && AllBoundTo(r.tables.nameToDtype, names, d) &&
            forall nm :: nm in names && nm !in t.nameToDtype ==> r.tables.nameToDtype[nm] == r.out.dtype
  {
  }

  /**
   * A name bound to a different dtype raises RuntimeError naming it; the
   * names before it are left registered (partial registration) and
   * `dtype_to_name` is untouched.
   */
  lemma ConflictIsPartial(t: Tables, names: seq<string>, d: Dtype)
    requires Consistent(t)
    requires Register(t, names, d).out.Raised? && Register(t, names, d).out.err.NameTaken?
    ensures var r := Register(t, names, d);
            var nm := r.out.err.name;
            r.tables.dtypeToName == t.dtypeToName &&
            exists i :: 0 <= i < |names| && names[i] == nm && nm in t.nameToDtype &&
                        t.nameToDtype[nm].kind != d.kind && AllBoundTo(r.tables.nameToDtype, names[..i], d)
  {
  }

  /**
   * When an equal dtype was registered before, the stored object comes
   * back and its dtype key is not rewritten; an existing `str()` key is
   * never rewritten.
   */
  lemma ExistingObjectReturned(t: Tables, names: seq<string>, d: Dtype)
    requires Consistent(t)
    ensures var r := Register(t, names, d);
            (ByDtype(d.kind) in t.dtypeToName && r.out.Returned? ==>
               r.out.dtype == t.nameToDtype[t.dtypeToName[ByDtype(d.kind)]] &&
               r.tables.dtypeToName[ByDtype(d.kind)] == t.dtypeToName[ByDtype(d.kind)]) &&
            (ByStr(d.kind) in t.dtypeToName ==>
               r.tables.dtypeToName[ByStr(d.kind)] == t.dtypeToName[ByStr(d.kind)])
  {
    RegisterKeepsConsistent(t, names, d);
  }

  /** A successful registration leaves no partial registration behind. */
  lemma RegisterKeepsComplete(t: Tables, names: seq<string>, d: Dtype)
    requires Consistent(t) && Complete(t)
    requires Register(t, names, d).out.Returned?
    ensures Complete(Register(t, names, d).tables)
  {
    var u := Register(t, names, d).tables;
    RegisterKeepsConsistent(t, names, d);
    forall nm | nm in u.nameToDtype
      ensures ByDtype(u.nameToDtype[nm].kind) in u.dtypeToName
    {
      if nm in t.nameToDtype {
        assert ByDtype(t.nameToDtype[nm].kind) in t.dtypeToName;
      }
    }
  }

  /**
   * Registering the same names with the same dtype a second time changes
   * neither dictionary and returns the same object, provided no partial
   * registration happened before.
   */
  lemma ReRegisterIdempotent(t: Tables, names: seq<string>, d: Dtype)
    requires Consistent(t) && Complete(t)
    requires Register(t, names, d).out.Returned?
    ensures var r := Register(t, names, d);
            Consistent(r.tables) && Register(r.tables, names, d) == r
  {
    var r := Register(t, names, d);
    RegisterKeepsConsistent(t, names, d);
    var u := r.tables;
    var dt := r.out.dtype;
    var k := ByDtype(d.kind);
    assert k in u.dtypeToName;
    if k in t.dtypeToName {
      assert u.dtypeToName[k] == t.dtypeToName[k];
      assert t.dtypeToName[k] in t.nameToDtype;
    } else {
      assert names != [];
      assert names[0] !in t.nameToDtype;
      assert u.nameToDtype[names[0]] == d;
    }
    assert u.nameToDtype[u.dtypeToName[k]] == dt;
    AddNamesAllBound(u.nameToDtype, names, dt);
  }

  /** Adding names that are all bound to equal dtypes changes nothing. */
  lemma {:induction false} AddNamesAllBound(n2d: map<string, Dtype>, names: seq<string>, d: Dtype)
    requires AllBoundTo(n2d, names, d)
    ensures AddNames(n2d, names, d) == Added(n2d, None)
    decreases |names|
  {
    if names != [] {
      assert forall i :: 0 < i < |names| ==> names[i] == names[1..][i - 1];
      AddNamesAllBound(n2d, names[1..], d);
    }
  }

  // ------------------------------------------------------------ reverse lookup

  /** `dtype_to_ctype`: None and an unmapped dtype are ValueErrors; otherwise the stored C name. */
  function DtypeToCtype(t: Tables, dtype: Option<Dtype>): (r: CtypeResult)
    ensures dtype.None? <==> r.NoneGiven?
    ensures r.CType? ==> ByDtype(dtype.value.kind) in t.dtypeToName
  {
    if dtype.None? then NoneGiven
    else if ByDtype(dtype.value.kind) in t.dtypeToName then CType(t.dtypeToName[ByDtype(dtype.value.kind)])
    else Unmapped
  }

  /** In a consistent registry the C name of a dtype maps back to an equal dtype. */
  lemma CtypeRoundTrip(t: Tables, d: Dtype)
    requires Consistent(t)
    requires DtypeToCtype(t, Some(d)).CType?
    ensures var nm := DtypeToCtype(t, Some(d)).name;
            nm in t.nameToDtype && t.nameToDtype[nm].kind == d.kind
  {
  }

  /**
   * Once a dtype is registered, `dtype_to_ctype` maps it to a name, which
   * is the first of the given names unless an equal dtype was known before.
   */
  lemma RegisteredHasCtype(t: Tables, names: seq<string>, d: Dtype)
    requires Consistent(t)
    requires Register(t, names, d).out.Returned?
    ensures var r := DtypeToCtype(Register(t, names, d).tables, Some(d));
            r.CType? && (ByDtype(d.kind) !in t.dtypeToName ==> r.name == names[0])
  {
  }

  // ------------------------------------------------------------ register_dtype

  /** What `register_dtype` leaves: the dictionaries, and the error it raised, if any (it returns None). */
  datatype Registered = Registered(tables: Tables, err: Option<RegError>)

  /**
   * The deprecated `register_dtype`: with `alias_ok` false, a dtype that
   * already has a dtype key is a RuntimeError and nothing changes;
   * otherwise it is `get_or_register_dtype`, whose result is dropped.
   */
  function RegisterDtypeSpec(t: Tables, names: CNames, d: Dtype, aliasOk: bool): Registered
    requires Consistent(t)
  {
    if !aliasOk && ByDtype(d.kind) in t.dtypeToName then Registered(t, Some(AlreadyRegistered))
    else
      var s := Register(t, AsList(names), d);
      Registered(s.tables, if s.out.Raised? then Some(s.out.err) else None)
  }

  /**
   * Without aliasing, a successful `register_dtype` registered the given
   * dtype object itself: every name that was unbound now maps to it, and
   * its new dtype key names the first C name.
   */
  lemma NoAliasRegistersGivenObject(t: Tables, names: CNames, d: Dtype)
    requires Consistent(t)
    ensures var r := RegisterDtypeSpec(t, names, d, false);
            (ByDtype(d.kind) in t.dtypeToName <==> r == Registered(t, Some(AlreadyRegistered))) &&
            (r.err.None? ==> ByDtype(d.kind) !in t.dtypeToName &&
                             r.tables.dtypeToName[ByDtype(d.kind)] == AsList(names)[0] &&
                             forall nm :: nm in AsList(names) && nm !in t.nameToDtype ==>
                                          r.tables.nameToDtype[nm] == d)
  {
    if ByDtype(d.kind) !in t.dtypeToName && Register(t, AsList(names), d).out.Returned? {
      RegisterBindsNames(t, AsList(names), d);
    }
  }

  // ------------------------------------------------------------ the registry object

  /** `DTypeRegistry`: the two dictionaries, updated in place. */
  class Registry {
    var nameToDtype: map<string, Dtype>
    var dtypeToName: map<Key, string>

    function State(): Tables
      reads this
    {
      Tables(nameToDtype, dtypeToName)
    }

    ghost predicate Valid()
      reads this
    {
      Consistent(State())
    }

    /** `DTypeRegistry()`: two empty dictionaries. */
    constructor ()
      ensures Valid() && Complete(State()) && State() == Tables(map[], map[])
    {
      nameToDtype := map[];
      dtypeToName := map[];
    }

    /** `get_or_register_dtype`, walking `c_names` one name at a time. */
    method GetOrRegisterDtype(cNames: CNames, dtype: Option<Dtype>) returns (out: Outcome)
      requires Valid()
      modifies this
      ensures Valid()
      ensures Step(State(), out) == GetOrRegister(old(State()), cNames, dtype)
    {
      var names := AsList(cNames);
      if dtype.None? {
        out := LookUp(names);
      } else {
        out := RegisterNames(names, dtype.value);
      }
    }

    /** The registration path of `get_or_register_dtype`. */
    method RegisterNames(names: seq<string>, d: Dtype) returns (out: Outcome)
      requires Valid()
      modifies this
      ensures Valid()
      ensures Step(State(), out) == Register(old(State()), names, d)
    {
      ghost var t := State();
      var existed := ByDtype(d.kind) in dtypeToName;
      var dt := d;
      if existed {
        var existingName := dtypeToName[ByDtype(d.kind)];
        dt := nameToDtype[existingName];
      }
      RegisterKeepsConsistent(t, names, d);
      var conflict := BindNames(names, dt);
      if conflict.Some? {
        return Raised(NameTaken(conflict.value));
      }
      if !existed {
        if |names| == 0 {
          return Raised(NoNames);
        }
        dtypeToName := dtypeToName[ByDtype(dt.kind) := names[0]];
      }
      if ByStr(dt.kind) !in dtypeToName {
        if |names| == 0 {
          return Raised(NoNames);
        }
        dtypeToName := dtypeToName[ByStr(dt.kind) := names[0]];
      }
      out := Returned(dt);
    }

    /** The loop binding each C name to the dtype; it stops at the first name bound to another kind. */
    method BindNames(names: seq<string>, dt: Dtype) returns (conflict: Option<string>)
      modifies this`nameToDtype
      ensures Added(nameToDtype, conflict) == AddNames(old(nameToDtype), names, dt)
    {
      ghost var n2d := nameToDtype;
      var i := 0;
      while i < |names|
        invariant 0 <= i <= |names|
        invariant AddNames(n2d, names, dt) == AddNames(nameToDtype, names[i..], dt)
      {
        var nm := names[i];
        AddNamesAt(nameToDtype, names, i, dt);
        if nm in nameToDtype {
          if nameToDtype[nm].kind != dt.kind {
            return Some(nm);
          }
        } else {
          nameToDtype := nameToDtype[nm := dt];
        }
        i := i + 1;
      }
      assert names[i..] == [];
      return None;
    }

    /** The `dtype=None` path: `single_valued` over the names' dtypes. */
    method LookUp(names: seq<string>) returns (out: Outcome)
      ensures out == SingleValued(nameToDtype, names)
    {
      if |names| == 0 {
        return Raised(NotSingleValued);
      }
      if names[0] !in nameToDtype {
        return Raised(UnknownName(names[0]));
      }
      var first := nameToDtype[names[0]];
      var i := 1;
      while i < |names|
        invariant 1 <= i <= |names|
        invariant AgreeWith(nameToDtype, names[1..], first) == AgreeWith(nameToDtype, names[i..], first)
      {
        assert names[i..] == [names[i]] + names[i + 1..];
        if names[i] !in nameToDtype {
          return Raised(UnknownName(names[i]));
        }
        if nameToDtype[names[i]].kind != first.kind {
          return Raised(NotSingleValued);
        }
        i := i + 1;
      }
      assert names[i..] == [];
      out := Returned(first);
    }
  }

  /** `register_dtype(dtype, c_names, alias_ok)` on the module's registry; it returns nothing. */
  method RegisterDtype(reg: Registry, d: Dtype, cNames: CNames, aliasOk: bool) returns (err: Option<RegError>)
    requires reg.Valid()
    modifies reg
    ensures reg.Valid()
    ensures Registered(reg.State(), err) == RegisterDtypeSpec(old(reg.State()), cNames, d, aliasOk)
  {
    if !aliasOk && ByDtype(d.kind) in reg.dtypeToName {
      return Some(AlreadyRegistered);
    }
    var out := reg.GetOrRegisterDtype(cNames, Some(d));
    err := if out.Raised? then Some(out.err) else None;
  }
}
