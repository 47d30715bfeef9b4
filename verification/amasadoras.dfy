/**
 * The `amasadoras` array inside a record's `data` document: how the handler
 * reads it, removes one element by position, and writes it back.
 */
module Amasadoras {
  import opened JsonValue

  /** The one key of `data` the handlers give a meaning to. */
  const Key: string := "amasadoras"

  /** `(registro.data || {}).amasadoras` when it is an array, and the empty
      sequence otherwise: when `data` is falsy, is not an object, lacks the key,
      or holds something other than an array under it. */
  function AmasadorasOf(data: Json): (s: seq<Json>)
    ensures data.JObj? && Key in data.fields && data.fields[Key].JArr? ==> s == data.fields[Key].items
    ensures !(data.JObj? && Key in data.fields && data.fields[Key].JArr?) ==> s == []
  {
    match data
    case JObj(m) => if Key in m && m[Key].JArr? then m[Key].items else []
    case _ => []
  }

  /** The sequence `splice(i, 1)` leaves behind: one element shorter, the
      elements before `i` in place, those after it moved down by one, and
      the same elements as before except the one removed. */
  function Spliced<T>(s: seq<T>, i: int): (r: seq<T>)
    requires 0 <= i < |s|
    ensures |r| == |s| - 1
    ensures forall k :: 0 <= k < |r| ==> r[k] == if k < i then s[k] else s[k + 1]
    ensures multiset(r) + multiset{s[i]} == multiset(s)
  {
    assert s == s[..i] + [s[i]] + s[i + 1..];
    s[..i] + s[i + 1..]
  }

  /** Removing one element keeps the relative order of all the others: any
      two survivors appear in the same order as in the original. */
  lemma SplicedKeepsOrder<T>(s: seq<T>, i: int, a: int, b: int)
    requires 0 <= i < |s|
    requires 0 <= a < b < |s| - 1
    ensures exists a', b' :: 0 <= a' < b' < |s| && a' != i && b' != i
                             && Spliced(s, i)[a] == s[a'] && Spliced(s, i)[b] == s[b']
  {
    var a' := if a < i then a else a + 1;
    var b' := if b < i then b else b + 1;
    assert Spliced(s, i)[a] == s[a'] && Spliced(s, i)[b] == s[b'];
  }

  /** `{ ...data, amasadoras }`: the same object with only `amasadoras`
      replaced. Only reached with an object, since any other `data` holds no
      amasadoras to remove. */
  function WithAmasadoras(data: Json, s: seq<Json>): (r: Json)
    requires data.JObj?
    ensures r.JObj?
    ensures r.fields.Keys == data.fields.Keys + {Key}
    ensures forall k :: k in data.fields && k != Key ==> r.fields[k] == data.fields[k]
    ensures AmasadorasOf(r) == s
  {
    JObj(data.fields[Key := JArr(s)])
  }

  /** Writing back what was read changes nothing. */
  lemma WithAmasadorasRestores(data: Json)
    requires data.JObj? && Key in data.fields && data.fields[Key].JArr?
    ensures WithAmasadoras(data, AmasadorasOf(data)) == data
  {
    assert WithAmasadoras(data, AmasadorasOf(data)).fields == data.fields;
  }

  /** `arr.splice(index, 1)` on a copy held in an array: the elements after
      `index` move down one place; the first `a.Length - 1` slots then hold
      the shortened sequence (the last slot is the one JavaScript drops when
      it shrinks the array). */
  method SpliceAt<T>(a: array<T>, index: int)
    requires 0 <= index < a.Length
    modifies a
    ensures a[..a.Length - 1] == Spliced(old(a[..]), index)
  {
    var k := index;
    while k < a.Length - 1
      invariant index <= k <= a.Length - 1
      invariant forall j :: 0 <= j < index ==> a[j] == old(a[j])
      invariant forall j :: index <= j < k ==> a[j] == old(a[j + 1])
      invariant forall j :: k <= j < a.Length ==> a[j] == old(a[j])
    {
      a[k] := a[k + 1];
      k := k + 1;
    }
  }

  /** `[...arr]` followed by `splice(index, 1)` on the copy: the original is
      left alone and the result is the spliced sequence. */
  method SplicedCopy<T>(s: seq<T>, index: int) returns (r: seq<T>)
    requires 0 <= index < |s|
    ensures r == Spliced(s, index)
  {
    var copy := new T[|s|](k requires 0 <= k < |s| => s[k]);
    assert copy[..] == s;
    SpliceAt(copy, index);
    r := copy[..copy.Length - 1];
  }
}
