/** `safeValue(value, fallback)` */
module SafeValues {
  import opened Ascii
  import opened JsValues

  /** `typeof value === 'string' && value.trim() === ''` */
  predicate IsBlankText(v: Value)
  {
    TypeOf(v) == TString && Trim(v.prim.s) == []
  }

  function SafeValue(value: Value, fallback: Value): (r: Value)
    ensures r == value || r == fallback
  {
    if value == P(Null) || value == P(Undefined) then fallback
    else if IsBlankText(value) then fallback
    else value
  }

  /** A value counts as missing when it is null, undefined, or a string made only of whitespace. */
  predicate Missing(v: Value)
  {
    IsNullish(v) || (v.P? && v.prim.Str? && forall i :: 0 <= i < |v.prim.s| ==> IsSpace(v.prim.s[i]))
  }

  /** A string trims to nothing exactly when every character of it is whitespace. */
  lemma {:induction false} BlankExactly(s: string)
    ensures Trim(s) == [] <==> forall i :: 0 <= i < |s| ==> IsSpace(s[i])
  {
    var ts := TrimStart(s);
    if Trim(s) == [] {
      assert ts == [];
    }
  }

  /** The fallback is used exactly for missing values; every other value is returned as it is. */
  lemma {:induction false} SafeValueExactly(value: Value, fallback: Value)
    ensures Missing(value) ==> SafeValue(value, fallback) == fallback
    ensures !Missing(value) ==> SafeValue(value, fallback) == value
  {
    if value.P? && value.prim.Str? {
      BlankExactly(value.prim.s);
    }
  }

  /** Falsy values other than null, undefined and "" are kept: 0, false, and the string "0" too. */
  lemma {:induction false} FalsyKept(value: Value, fallback: Value)
    requires value == P(Num(0)) || value == P(Bool(false)) || value == P(Str("0"))
    ensures SafeValue(value, fallback) == value
  {
    SafeValueExactly(value, fallback);
    if value == P(Str("0")) {
      assert !IsSpace(value.prim.s[0]);
    }
  }

  /** An object comes back as the same reference. */
  lemma {:induction false} ReferenceKept(id: nat, fallback: Value)
    ensures SafeValue(Ref(id), fallback) == Ref(id)
  {
    SafeValueExactly(Ref(id), fallback);
  }

  /** With a fallback that is not missing, the result is never missing. */
  lemma {:induction false} PresentFallback(value: Value, fallback: Value)
    requires !Missing(fallback)
    ensures !Missing(SafeValue(value, fallback))
  {
    SafeValueExactly(value, fallback);
  }
}
