/**
 * The optional `take` and `skip` query parameters of the listing endpoint,
 * normalised with `Math.max(0, parseInt(x)) || undefined`.
 */
module Pagination {
  import opened Wrappers
  import opened JsParseInt

  /** `parseInt(x)` of a query parameter: an absent parameter is `undefined`,
      which parseInt first turns into the text "undefined", so it is `NaN`. */
  function ParseQuery(raw: Option<string>): (r: Option<int>)
    ensures raw.None? ==> r.None?
  {
    if raw.None? then
      NoDigitsIsNaN([], "", "undefined");
      assert [] + "" + "undefined" == "undefined";
      ParseInt("undefined")
    else ParseInt(raw.value)
  }

  /** `Math.max(0, n)`: `NaN` stays `NaN`; a number becomes the larger of
      itself and 0. */
  function MaxZero(p: Option<int>): (r: Option<int>)
    ensures r.Some? <==> p.Some?
    ensures r.Some? ==> r.value >= 0 && r.value >= p.value && (r.value == 0 || r.value == p.value)
  {
    match p
    case None => None
    case Some(n) => Some(if n < 0 then 0 else n)
  }

  /** `n || undefined` on a number: `NaN` and `0` are falsy and become
      `undefined`; any other number is kept. */
  function OrUndefined(p: Option<int>): (r: Option<int>)
    ensures r.None? <==> p.None? || p.value == 0
    ensures r.Some? ==> r == p
  {
    if p.Some? && p.value != 0 then p else None
  }

  /** The normalised page bound: either absent (no limit, no offset) or a
      strictly positive integer, and present exactly when the parameter
      parses to a positive integer, which it then is. */
  function Normalize(raw: Option<string>): (r: Option<int>)
    ensures r.Some? ==> r.value > 0
    ensures r.Some? <==> ParseQuery(raw).Some? && ParseQuery(raw).value > 0
    ensures r.Some? ==> r == ParseQuery(raw)
  {
    OrUndefined(MaxZero(ParseQuery(raw)))
  }

  /** The bounds the listing passes to the store: a `take` or `skip` key only
      when the normalised value is a number. The ordering it also passes is
      fixed and is not modelled. */
  datatype FindManyArgs = FindManyArgs(take: Option<int>, skip: Option<int>)

  function ListArgs(takeRaw: Option<string>, skipRaw: Option<string>): (q: FindManyArgs)
    ensures q.take.Some? ==> q.take.value > 0
    ensures q.skip.Some? ==> q.skip.value > 0
  {
    FindManyArgs(Normalize(takeRaw), Normalize(skipRaw))
  }

  /** The decimal text of an integer normalises to that integer when it is
      positive, and to "no bound" when it is zero or negative. */
  lemma NormalizeDecimal(n: int)
    ensures Normalize(Some(Decimal(n))) == if n > 0 then Some(n) else None
  {
    ParseIntDecimal([], n, []);
    assert [] + Decimal(n) + [] == Decimal(n);
  }

  /** Text that, after white space and at most one sign, does not start
      with a digit means no bound. */
  lemma NormalizeNonNumeric(ws: string, sign: string, t: string)
    requires forall i :: 0 <= i < |ws| ==> IsJsSpace(ws[i])
    requires sign == "" || sign == "-" || sign == "+"
    requires sign == "" && t != [] ==> !IsJsSpace(t[0]) && t[0] != '-' && t[0] != '+'
    requires t == [] || !IsDigit(t[0], 10)
    ensures Normalize(Some(ws + sign + t)) == None
  {
    NoDigitsIsNaN(ws, sign, t);
  }
}
