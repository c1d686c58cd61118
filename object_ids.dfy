/**
 * MongoDB ObjectIds in their text form. The store keys books by the canonical form
 * (24 lower-case hexadecimal digits); a lookup casts its argument first, and a string
 * that is not 24 hexadecimal digits fails the cast.
 */
module ObjectIds {
  import opened Common
  import opened Text

  /** What Joi's `string().hex().length(24)` accepts. */
  predicate IsObjectIdText(s: string) { |s| == 24 && AllHex(s) }

  predicate IsCanonicalId(s: string) {
    |s| == 24 && forall i :: 0 <= i < |s| ==> '0' <= s[i] <= '9' || 'a' <= s[i] <= 'f'
  }

  /** The ObjectId a 24-hex string denotes, in canonical form; `None` where Mongoose throws a CastError. */
  function CastObjectId(s: string): (r: Option<string>)
    ensures r.Some? <==> IsObjectIdText(s)
    ensures r.Some? ==> IsCanonicalId(r.value) && |r.value| == |s|
    ensures r.Some? ==> forall i :: 0 <= i < |s| ==> r.value[i] == LowerChar(s[i])
  {
    if IsObjectIdText(s) then Some(Lower(s)) else None
  }

  /** Casting is idempotent: a canonical id casts to itself. */
  lemma CastCanonical(s: string)
    requires IsCanonicalId(s)
    ensures CastObjectId(s) == Some(s)
  {
    assert Lower(s) == s;
  }
}
