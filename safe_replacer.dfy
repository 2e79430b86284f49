/** `safeReplacer` of src/safe-replacer.ts: the replacer handed to `JSON.stringify`
    that leaves out the fields a node must not serialise, anything holding the
    extension runtime, and every object met a second time. */
module SafeReplacer {

  /** The values the replacer tells apart. An object is known by its identity `ref`
      and the property names `in` finds on it (its own and inherited ones). */
  datatype JsValue = Undefined | Null | Primitive(repr: string) | Obj(ref: nat, props: set<string>)

  /** The keys that are always left out (src/safe-replacer.ts:5-7). */
  predicate BlockedKey(key: string)
  {
    key == "provider" || key == "terminal" || key == "command"
  }

  /** One call of the replacer with the seen set `seen`: the value written out and the
      seen set afterwards (src/safe-replacer.ts:3-20). */
  function Step(seen: set<nat>, key: string, value: JsValue): (out: (JsValue, set<nat>))
    ensures BlockedKey(key) ==> out == (Undefined, seen)
    ensures !BlockedKey(key) && value.Obj? && "extensionRuntime" in value.props ==> out == (Undefined, seen)
    ensures !BlockedKey(key) && value.Obj? && "extensionRuntime" !in value.props ==>
      out == (if value.ref in seen then (Undefined, seen) else (value, seen + {value.ref}))
    ensures !BlockedKey(key) && !value.Obj? ==> out == (value, seen)
  {
    if BlockedKey(key) then (Undefined, seen)
    else match value
      case Obj(ref, props) =>
        if "extensionRuntime" in props then (Undefined, seen)
        else if ref in seen then (Undefined, seen)
        else (value, seen + {ref})
      case _ => (value, seen)
  }

  /** A sequence of calls of one replacer, from the seen set `seen`: the values written
      out, in order, and the final seen set. */
  function Run(seen: set<nat>, calls: seq<(string, JsValue)>): (out: (seq<JsValue>, set<nat>))
    ensures |out.0| == |calls|
    ensures seen <= out.1
    decreases |calls|
  {
    if calls == [] then ([], seen)
    else
      var (v, seen1) := Step(seen, calls[0].0, calls[0].1);
      var (rest, last) := Run(seen1, calls[1..]);
      ([v] + rest, last)
  }

  /** Every object the replacer writes out is one it had not seen, it is remembered
      afterwards, and no object is written out twice: the cycle cut. */
  lemma {:induction false} RunWritesEachObjectOnce(seen: set<nat>, calls: seq<(string, JsValue)>)
    ensures forall i :: 0 <= i < |calls| && Run(seen, calls).0[i].Obj? ==>
      Run(seen, calls).0[i].ref !in seen && Run(seen, calls).0[i].ref in Run(seen, calls).1
    ensures forall i, j :: 0 <= i < j < |calls| && Run(seen, calls).0[i].Obj? && Run(seen, calls).0[j].Obj? ==>
      Run(seen, calls).0[i].ref != Run(seen, calls).0[j].ref
    decreases |calls|
  {
    if calls != [] {
      var step := Step(seen, calls[0].0, calls[0].1);
      var v, seen1 := step.0, step.1;
      assert seen <= seen1;
      if v.Obj? {
        assert v == calls[0].1 && v.ref !in seen && seen1 == seen + {v.ref};
      }
      RunWritesEachObjectOnce(seen1, calls[1..]);
      var tail := Run(seen1, calls[1..]);
      var rest, last := tail.0, tail.1;
      var outs := [v] + rest;
      assert Run(seen, calls) == (outs, last);
      forall i | 0 <= i < |outs| && outs[i].Obj? ensures outs[i].ref !in seen && outs[i].ref in last {
        if i > 0 {
          assert outs[i] == rest[i - 1];
        }
      }
      forall i, j | 0 <= i < j < |outs| && outs[i].Obj? && outs[j].Obj? ensures outs[i].ref != outs[j].ref {
        assert outs[j] == rest[j - 1];
        if i > 0 {
          assert outs[i] == rest[i - 1];
        }
      }
    }
  }

  /** The closure `safeReplacer()` returns, with its own seen set. */
  class Replacer {
    var seen: set<nat>

    /** Each `safeReplacer()` starts from an empty seen set (src/safe-replacer.ts:2). */
    constructor()
      ensures seen == {}
    {
      seen := {};
    }

    /** One call `(key, value)` of the closure (src/safe-replacer.ts:3-20). */
    method Replace(key: string, value: JsValue) returns (r: JsValue)
      modifies this
      ensures (r, seen) == Step(old(seen), key, value)
    {
      if key == "provider" || key == "terminal" || key == "command" {
        return Undefined;
      }
      if value.Obj? && "extensionRuntime" in value.props {
        return Undefined;
      }
      if value.Obj? {
        if value.ref in seen {
          return Undefined;
        }
        seen := seen + {value.ref};
      }
      r := value;
    }
  }

  /** A fresh replacer writes an object out the first time and leaves it out the second. */
  method ReplaceTwice(key: string, o: JsValue) returns (first: JsValue, second: JsValue)
    requires o.Obj? && !BlockedKey(key) && "extensionRuntime" !in o.props
    ensures first == o && second == Undefined
  {
    var r := new Replacer();
    first := r.Replace(key, o);
    second := r.Replace(key, o);
  }
}
