/**
 Listener callbacks as the chain's `attach` sees them, and the inspection it
 performs on them to find a validator (a bare validator object, or an array
 callback whose first element is one).
 */
module Callbacks {
  import opened Results
  import opened Validators

  /**
   One element of an array callback such as `[$validator, 'isValid']`: a
   validator object, any other object (known by its class name), a string,
   or `null`.
   */
  datatype Elem = ValidatorElem(v: Validator) | ObjElem(cls: string) | StrElem(s: string) | NullElem

  /**
   A callback: anything that is neither an array nor a validator object
   (a closure, a function name, `null`) is `Plain`.
   */
  datatype Callback =
    | Plain(id: string)
    | Val(v: Validator)
    | Arr(elems: seq<Elem>)

  /** `array_shift`: the first element (`null` for an empty array) and the remainder. */
  function Shift(elems: seq<Elem>): (r: (Elem, seq<Elem>))
    ensures |elems| > 0 ==> r.0 == elems[0] && |r.1| == |elems| - 1
    ensures |elems| == 0 ==> r == (NullElem, [])
  {
    if |elems| == 0 then (NullElem, []) else (elems[0], elems[1..])
  }

  /** `array_unshift` of one element. */
  function Unshift(e: Elem, elems: seq<Elem>): (r: seq<Elem>)
    ensures |r| == |elems| + 1 && r[0] == e && r[1..] == elems
  {
    [e] + elems
  }

  /** Shifting an element off and unshifting it back restores any non-empty array. */
  lemma ShiftUnshiftRestores(elems: seq<Elem>)
    ensures |elems| > 0 ==> Unshift(Shift(elems).0, Shift(elems).1) == elems
    ensures |elems| == 0 ==> Unshift(Shift(elems).0, Shift(elems).1) == [NullElem]
  {
  }

  /** The callback is a validator, or an array whose first element is a validator. */
  predicate IsValidatorBacked(cb: Callback) {
    cb.Val? || (cb.Arr? && |cb.elems| > 0 && cb.elems[0].ValidatorElem?)
  }

  /** The validator a validator-backed callback carries. */
  function BackingValidator(cb: Callback): Validator
    requires IsValidatorBacked(cb)
  {
    if cb.Val? then cb.v else cb.elems[0].v
  }

  /** What an array callback looks like after the shift/unshift inspection. */
  function Inspected(cb: Callback): Callback {
    if cb == Arr([]) then Arr([NullElem]) else cb
  }

  /**
   The inspection `attach` performs: the validator found (if any) and the
   callback as it is handed on to the base dispatcher. An array is probed by
   shifting its first element off and unshifting it back.
   */
  function Detect(cb: Callback): (r: (Option<Validator>, Callback))
    ensures r.0.Some? <==> IsValidatorBacked(cb)
    ensures r.0.Some? ==> r.0.value == BackingValidator(cb)
    ensures r.1 == Inspected(cb)
    ensures cb != Arr([]) ==> r.1 == cb
  {
    match cb
    case Val(v) => (Some(v), cb)
    case Arr(elems) =>
      var (test, rest) := Shift(elems);
      var context := if test.ValidatorElem? then Some(test.v) else None;
      ShiftUnshiftRestores(elems);
      (context, Arr(Unshift(test, rest)))
    case Plain(_) => (None, cb)
  }
}
