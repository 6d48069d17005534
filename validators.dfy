/**
  The input checks of the blog controller: `isValid`, `isValidUserInput` and
  `isValidObjectId`. The last wraps `mongoose.Types.ObjectId.isValid`, a
  library call whose definition is not part of this model; it is passed in as
  the predicate `validId` on strings.
*/
module Validators {
  import opened Wrappers
  import opened JsValue

  /** `isValid`: false for undefined, null and strings that are blank after trimming. */
  predicate IsValid(v: Value) {
    if v.Undefined? || v.Null? then false
    else if v.Str? && |Trim(v.s)| == 0 then false
    else true
  }

  /**
    `isValid` rejects exactly undefined, null and all-whitespace strings;
    every other value, `false`, `0`, `[]` and `{}` included, is valid.
  */
  lemma IsValidExactly(v: Value)
    ensures !IsValid(v) <==> v == Undefined || v == Null || (v.Str? && AllWhitespace(v.s))
  {
    if v.Str? {
      TrimEmptyIff(v.s);
    }
  }

  /** A valid string keeps some non-whitespace character after trimming. */
  lemma ValidStringTrimsNonEmpty(s: string)
    requires IsValid(Str(s))
    ensures Trim(s) != [] && IsTrimmed(Trim(s))
  {
    TrimIsTrimmed(s);
  }

  /**
    `isValidUserInput`: `Object.keys(data).length > 0`. It throws on undefined
    and null; the handlers meet that case through `KeyCount` first.
  */
  predicate IsValidUserInput(v: Value) {
    KeyCount(v).Some? && KeyCount(v).value > 0
  }

  /** `isValidObjectId` on a value: only a string can be a well-formed id here. */
  predicate IsValidObjectId(v: Value, validId: string -> bool) {
    v.Str? && validId(v.s)
  }
}
