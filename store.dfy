/** The variable store and the value-level rules of the statements that rewrite it: array
    mutation by copy-out, mutate, write-back, and the save/shadow/restore discipline around a
    user function call, which is the language's only scoping mechanism. */
module Store {
  import opened Values

  /** The flat variable namespace held by the runtime. */
  type Vars = map<string, Value>

  /** `Runtime::get_var`: a name that was never set (or was removed) reads as `Nil`. */
  function GetVar(vars: Vars, name: string): (v: Value)
    ensures name !in vars ==> v == Nil
  {
    if name in vars then vars[name] else Nil
  }

  // ---------------------------------------------------------------------------------
  // Array mutation: the value written back to the variable

  /** `arr[idx] = v` on the copied-out value: only an in-bounds element of an array is
      replaced; anything else is written back unchanged. */
  function AssignElement(current: Value, idx: nat, v: Value): (r: Value)
    ensures current.Array? && idx < |current.elems| ==>
              r.Array? && |r.elems| == |current.elems| && r.elems[idx] == v &&
              forall j :: 0 <= j < |r.elems| && j != idx ==> r.elems[j] == current.elems[j]
    ensures !(current.Array? && idx < |current.elems|) ==> r == current
  {
    match current
    case Array(elems) => if idx < |elems| then Array(elems[idx := v]) else current
    case _ => current
  }

  /** `push`: appends to an array; any other value becomes the array `[v]`. */
  function PushValue(current: Value, v: Value): (r: Value)
    ensures r.Array? && r.elems != [] && r.elems[|r.elems| - 1] == v
    ensures r.elems[..|r.elems| - 1] == if current.Array? then current.elems else []
  {
    match current
    case Array(elems) => Array(elems + [v])
    case _ => Array([v])
  }

  /** `pop`: drops the last element of a non-empty array; otherwise nothing changes. */
  function PopValue(current: Value): (r: Value)
    ensures current.Array? && current.elems != [] ==> r == Array(current.elems[..|current.elems| - 1])
    ensures !(current.Array? && current.elems != []) ==> r == current
  {
    match current
    case Array(elems) => if elems != [] then Array(elems[..|elems| - 1]) else current
    case _ => current
  }

  /** `shift`: drops the first element of a non-empty array; otherwise nothing changes. */
  function ShiftValue(current: Value): (r: Value)
    ensures current.Array? && current.elems != [] ==> r == Array(current.elems[1..])
    ensures !(current.Array? && current.elems != []) ==> r == current
  {
    match current
    case Array(elems) => if elems != [] then Array(elems[1..]) else current
    case _ => current
  }

  /** `unshift`: prepends to an array; any other value becomes the array `[v]`. */
  function UnshiftValue(current: Value, v: Value): (r: Value)
    ensures r.Array? && r.elems != [] && r.elems[0] == v
    ensures r.elems[1..] == if current.Array? then current.elems else []
  {
    match current
    case Array(elems) => Array([v] + elems)
    case _ => Array([v])
  }

  /** `pop` undoes `push` on an array, and `shift` undoes `unshift`; on any other value the
      pair leaves the empty array. */
  lemma PushPopUnshiftShift(current: Value, v: Value)
    ensures PopValue(PushValue(current, v)) == if current.Array? then current else Array([])
    ensures ShiftValue(UnshiftValue(current, v)) == if current.Array? then current else Array([])
  {
    if current.Array? {
      assert current.elems + [v] != [];
      assert [v] + current.elems != [];
    }
  }

  /** In a store, `push` then `pop` on a variable leaves it holding the array it held (the
      empty array when it held none) and every other variable as it was; likewise `unshift`
      then `shift`. */
  lemma PushPopInStore(vars: Vars, a: string, v: Value)
    ensures var pushed := vars[a := PushValue(GetVar(vars, a), v)];
            pushed[a := PopValue(GetVar(pushed, a))] ==
              vars[a := if GetVar(vars, a).Array? then GetVar(vars, a) else Array([])]
    ensures var unshifted := vars[a := UnshiftValue(GetVar(vars, a), v)];
            unshifted[a := ShiftValue(GetVar(unshifted, a))] ==
              vars[a := if GetVar(vars, a).Array? then GetVar(vars, a) else Array([])]
  {
    PushPopUnshiftShift(GetVar(vars, a), v);
  }

  /** `push` of the element `pop` removed restores the array, and likewise `unshift` of the
      element `shift` removed. */
  lemma PopPushShiftUnshift(elems: seq<Value>)
    requires elems != []
    ensures PushValue(PopValue(Array(elems)), elems[|elems| - 1]) == Array(elems)
    ensures UnshiftValue(ShiftValue(Array(elems)), elems[0]) == Array(elems)
  {
    assert elems[..|elems| - 1] + [elems[|elems| - 1]] == elems;
    assert [elems[0]] + elems[1..] == elems;
  }

  // ---------------------------------------------------------------------------------
  // The call protocol: bind the parameters, run the body, restore them

  /** One entry of the `saved` vector: a parameter and what it held before the call, `None`
      when it read as `Nil`. */
  datatype Saved = Saved(name: string, prior: Option<Value>)

  /** `arg_vals.get(i).cloned().unwrap_or(Value::Nil)`. */
  function ArgOrNil(args: seq<Value>, i: nat): Value {
    if i < |args| then args[i] else Nil
  }

  /** The entry saved for `p`: `Nil` is saved as "unset". */
  function SavedSlot(vars: Vars, p: string): (s: Option<Value>)
    ensures s.None? <==> GetVar(vars, p) == Nil
    ensures s.Some? ==> s.value == GetVar(vars, p)
  {
    match GetVar(vars, p)
    case Nil => None
    case v => Some(v)
  }

  /** The binding loop over `params` in order: save what `p` holds, then bind the i-th argument
      (or `Nil`) to it. Gives the store the body starts from and the saved vector. */
  function BindParams(vars: Vars, params: seq<string>, args: seq<Value>): (r: (Vars, seq<Saved>))
    ensures |r.1| == |params|
    decreases |params|
  {
    if params == [] then (vars, [])
    else
      var (bound, saved) := BindParams(vars, params[..|params| - 1], args);
      var p := params[|params| - 1];
      (bound[p := ArgOrNil(args, |params| - 1)], saved + [Saved(p, SavedSlot(bound, p))])
  }

  /** Undo one saved entry: put the prior value back, or remove the name. */
  function Unshadow(vars: Vars, s: Saved): (r: Vars)
    ensures GetVar(r, s.name) == (if s.prior.Some? then s.prior.value else Nil)
    ensures s.prior.None? ==> s.name !in r
  {
    match s.prior
    case Some(v) => vars[s.name := v]
    case None => vars - {s.name}
  }

  /** Undoing an entry leaves every other name as it was. */
  lemma UnshadowOther(vars: Vars, s: Saved, x: string)
    requires x != s.name
    ensures var r := Unshadow(vars, s);
            (x in r <==> x in vars) && GetVar(r, x) == GetVar(vars, x)
  {
  }

  /** The restore loop over the saved vector, in the order it was saved. */
  function RestoreParams(vars: Vars, saved: seq<Saved>): Vars
    decreases |saved|
  {
    if saved == [] then vars else Unshadow(RestoreParams(vars, saved[..|saved| - 1]), saved[|saved| - 1])
  }

  /** The binding loop of a call, over a copy of the store. */
  method Bind(vars: Vars, params: seq<string>, args: seq<Value>) returns (store: Vars, saved: seq<Saved>)
    ensures (store, saved) == BindParams(vars, params, args)
  {
    store, saved := vars, [];
    var i := 0;
    while i < |params|
      invariant 0 <= i <= |params|
      invariant (store, saved) == BindParams(vars, params[..i], args)
    {
      var p := params[i];
      var prior := match GetVar(store, p) case Nil => None case v => Some(v);
      saved := saved + [Saved(p, prior)];
      store := store[p := ArgOrNil(args, i)];
      assert params[..i + 1][..i] == params[..i];
      i := i + 1;
    }
    assert params[..i] == params;
  }

  /** The restore loop of a call, over a copy of the store. */
  method Restore(vars: Vars, saved: seq<Saved>) returns (store: Vars)
    ensures store == RestoreParams(vars, saved)
  {
    store := vars;
    var j := 0;
    while j < |saved|
      invariant 0 <= j <= |saved|
      invariant store == RestoreParams(vars, saved[..j])
    {
      match saved[j].prior {
        case Some(v) => store := store[saved[j].name := v];
        case None => store := store - {saved[j].name};
      }
      assert saved[..j + 1][..j] == saved[..j];
      j := j + 1;
    }
    assert saved[..j] == saved;
  }

  predicate Distinct(names: seq<string>) {
    forall i, j :: 0 <= i < j < |names| ==> names[i] != names[j]
  }

  /** With distinct parameters, binding gives the i-th parameter the i-th argument (`Nil`
      when there are fewer arguments), saves exactly what each parameter held before, and
      touches no other name. */
  lemma {:induction false} BindParamsSpec(vars: Vars, params: seq<string>, args: seq<Value>)
    requires Distinct(params)
    ensures var (bound, saved) := BindParams(vars, params, args);
            (forall i :: 0 <= i < |params| ==> params[i] in bound && bound[params[i]] == ArgOrNil(args, i)) &&
            (forall i :: 0 <= i < |params| ==> saved[i] == Saved(params[i], SavedSlot(vars, params[i]))) &&
            (forall x :: x !in params ==> (x in bound <==> x in vars) && GetVar(bound, x) == GetVar(vars, x))
  {
    if params != [] {
      var n := |params| - 1;
      var init := params[..n];
      assert Distinct(init);
      BindParamsSpec(vars, init, args);
      var (bound0, saved0) := BindParams(vars, init, args);
      var p := params[n];
      var (bound, saved) := BindParams(vars, params, args);
      assert bound == bound0[p := ArgOrNil(args, n)];
      assert saved == saved0 + [Saved(p, SavedSlot(bound0, p))];
      assert p !in init by {
        forall i | 0 <= i < n ensures init[i] != p { assert init[i] == params[i]; }
      }
      assert SavedSlot(bound0, p) == SavedSlot(vars, p);
      forall i | 0 <= i < |params|
        ensures params[i] in bound && bound[params[i]] == ArgOrNil(args, i)
        ensures saved[i] == Saved(params[i], SavedSlot(vars, params[i]))
      {
        if i < n {
          assert params[i] == init[i] && params[i] != p;
          assert saved[i] == saved0[i];
        }
      }
      forall x | x !in params
        ensures (x in bound <==> x in vars) && GetVar(bound, x) == GetVar(vars, x)
      {
        assert x != p;
        assert x !in init by {
          forall i | 0 <= i < n ensures init[i] != x { assert init[i] == params[i]; }
        }
      }
    }
  }

  /** With distinct names, restoring gives each saved name its saved value (removing it when
      it was unset) and leaves every other name as the body left it. */
  lemma {:induction false} RestoreParamsSpec(vars: Vars, saved: seq<Saved>)
    requires forall i, j :: 0 <= i < j < |saved| ==> saved[i].name != saved[j].name
    ensures var r := RestoreParams(vars, saved);
            (forall i :: 0 <= i < |saved| ==>
               GetVar(r, saved[i].name) == (if saved[i].prior.Some? then saved[i].prior.value else Nil) &&
               (saved[i].name in r <==> saved[i].prior.Some?)) &&
            (forall x :: (forall i :: 0 <= i < |saved| ==> saved[i].name != x) ==>
               (x in r <==> x in vars) && GetVar(r, x) == GetVar(vars, x))
  {
    if saved != [] {
      var n := |saved| - 1;
      var init := saved[..n];
      RestoreParamsSpec(vars, init);
      var r0 := RestoreParams(vars, init);
      var r := RestoreParams(vars, saved);
      assert r == Unshadow(r0, saved[n]);
      forall i | 0 <= i < |saved|
        ensures GetVar(r, saved[i].name) == (if saved[i].prior.Some? then saved[i].prior.value else Nil)
        ensures saved[i].name in r <==> saved[i].prior.Some?
      {
        if i < n {
          assert init[i] == saved[i];
          UnshadowOther(r0, saved[n], saved[i].name);
        }
      }
      forall x | forall i :: 0 <= i < |saved| ==> saved[i].name != x
        ensures (x in r <==> x in vars) && GetVar(r, x) == GetVar(vars, x)
      {
        assert forall i :: 0 <= i < n ==> init[i].name != x by {
          forall i | 0 <= i < n ensures init[i].name != x { assert init[i] == saved[i]; }
        }
        UnshadowOther(r0, saved[n], x);
      }
    }
  }

  /** The call protocol's promise: after binding distinct parameters, running a body that
      left the store as `after`, and restoring, every parameter holds its pre-call value again
      (and is absent when that read as `Nil`), and every other name keeps what the body wrote. */
  lemma ParamsRestoredAfterCall(before: Vars, params: seq<string>, args: seq<Value>, after: Vars)
    requires Distinct(params)
    ensures var r := RestoreParams(after, BindParams(before, params, args).1);
            (forall p :: p in params ==> GetVar(r, p) == GetVar(before, p) && (p in r <==> GetVar(before, p) != Nil)) &&
            (forall x :: x !in params ==> (x in r <==> x in after) && GetVar(r, x) == GetVar(after, x))
  {
    var saved := BindParams(before, params, args).1;
    BindParamsSpec(before, params, args);
    assert forall i, j :: 0 <= i < j < |saved| ==> saved[i].name != saved[j].name;
    RestoreParamsSpec(after, saved);
    var r := RestoreParams(after, saved);
    forall p | p in params ensures GetVar(r, p) == GetVar(before, p) && (p in r <==> GetVar(before, p) != Nil) {
      var i :| 0 <= i < |params| && params[i] == p;
      assert saved[i].name == p;
    }
    forall x | x !in params ensures (x in r <==> x in after) && GetVar(r, x) == GetVar(after, x) {
      assert forall i :: 0 <= i < |saved| ==> saved[i].name == params[i];
    }
  }

  /** The restore runs in the order the parameters were saved, so a repeated parameter name
      is not restored: after `f(1, 2)` with parameters `x, x`, `x` holds `1`, not its
      pre-call value `7`. */
  lemma DuplicateParamNotRestored()
    ensures var before := map["x" := Int(7)];
            var saved := BindParams(before, ["x", "x"], [Int(1), Int(2)]).1;
            GetVar(RestoreParams(map["x" := Int(2)], saved), "x") == Int(1)
  {
    var before := map["x" := Int(7)];
    var args := [Int(1), Int(2)];
    assert ["x", "x"][..1] == ["x"];
    assert ["x"][..0] == [];
    assert BindParams(before, [], args) == (before, []);
    assert SavedSlot(before, "x") == Some(Int(7));
    var one := BindParams(before, ["x"], args);
    assert one.0 == before["x" := ArgOrNil(args, 0)];
    assert one.1 == [] + [Saved("x", SavedSlot(before, "x"))];
    assert one.0 == map["x" := Int(1)];
    assert one.1 == [Saved("x", Some(Int(7)))];
    assert SavedSlot(map["x" := Int(1)], "x") == Some(Int(1));
    var saved := BindParams(before, ["x", "x"], args).1;
    assert saved == [Saved("x", Some(Int(7))), Saved("x", Some(Int(1)))];
    assert saved[..1] == [Saved("x", Some(Int(7)))];
    assert [Saved("x", Some(Int(7)))][..0] == [];
  }
}
