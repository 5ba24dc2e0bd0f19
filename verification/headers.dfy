/** The header table of requests and responses.

    Header names are looked up case-insensitively and with '-' and '_'
    interchangeable: every key is stored in its normal form, lower case with
    dashes turned into underscores.  The table class itself is not part of
    this model; this module states the lookup discipline the connector
    relies on.
 */
module Headers {
  import opened Wrappers
  import opened Text

  /** A header value: a string, an integer (a computed Content-Length) or a
      list of values (a repeated header). */
  datatype Value = VStr(s: string) | VInt(n: int) | VList(items: seq<Value>)

  type Table = map<string, Value>

  function KeyChar(c: char): (k: char)
    ensures k != '-' && !('A' <= k <= 'Z')
  {
    if c == '-' then '_' else LowerChar(c)
  }

  /** The normal form of a header name. */
  function NormalKey(name: string): (k: string)
    ensures |k| == |name|
    ensures forall i :: 0 <= i < |k| ==> k[i] != '-' && !('A' <= k[i] <= 'Z')
  {
    seq(|name|, i requires 0 <= i < |name| => KeyChar(name[i]))
  }

  /** Normalising a normal name changes nothing, so every spelling of a name
      reaches the same entry. */
  lemma NormalKeyIdempotent(name: string)
    ensures NormalKey(NormalKey(name)) == NormalKey(name)
  {
    var k := NormalKey(name);
    assert forall i :: 0 <= i < |k| ==> KeyChar(k[i]) == k[i];
  }

  /** A name already in normal form. */
  predicate IsNormalKey(k: string) {
    forall i :: 0 <= i < |k| ==> k[i] != '-' && !('A' <= k[i] <= 'Z')
  }

  lemma NormalKeyOfNormal(k: string)
    requires IsNormalKey(k)
    ensures NormalKey(k) == k
  {
    assert forall i :: 0 <= i < |k| ==> NormalKey(k)[i] == k[i];
  }

  function Get(t: Table, name: string): (r: Option<Value>)
    ensures r.Some? <==> NormalKey(name) in t
  {
    var k := NormalKey(name);
    if k in t then Some(t[k]) else None
  }

  predicate Member(t: Table, name: string) { NormalKey(name) in t }

  /** `table[name] = value` */
  function Put(t: Table, name: string, v: Value): (r: Table)
    ensures Get(r, name) == Some(v)
    ensures forall other :: NormalKey(other) != NormalKey(name) ==> Get(r, other) == Get(t, other)
  {
    t[NormalKey(name) := v]
  }

  /** `table.delete( name )` */
  function Delete(t: Table, name: string): (r: Table)
    ensures Get(r, name).None?
    ensures forall other :: NormalKey(other) != NormalKey(name) ==> Get(r, other) == Get(t, other)
  {
    t - {NormalKey(name)}
  }

  /** `table.merge!( hash )`: the pairs are stored in order, so a later pair
      wins over an earlier one with the same normal name. */
  function Merge(t: Table, pairs: seq<(string, Value)>): (r: Table)
    ensures forall other :: (forall i :: 0 <= i < |pairs| ==> NormalKey(pairs[i].0) != NormalKey(other)) ==>
      Get(r, other) == Get(t, other)
    ensures forall i :: 0 <= i < |pairs| && LastOfItsName(pairs, i) ==> Get(r, pairs[i].0) == Some(pairs[i].1)
    decreases |pairs|
  {
    if pairs == [] then t
    else
      var rest := pairs[1..];
      assert forall i :: 1 <= i < |pairs| && LastOfItsName(pairs, i) ==> LastOfItsName(rest, i - 1) by {
        forall i | 1 <= i < |pairs| && LastOfItsName(pairs, i)
          ensures LastOfItsName(rest, i - 1)
        {
          assert forall j :: i - 1 < j < |rest| ==> rest[j] == pairs[j + 1];
        }
      }
      assert LastOfItsName(pairs, 0) ==> forall j :: 0 <= j < |rest| ==> NormalKey(rest[j].0) != NormalKey(pairs[0].0) by {
        assert forall j :: 0 <= j < |rest| ==> rest[j] == pairs[j + 1];
      }
      Merge(Put(t, pairs[0].0, pairs[0].1), rest)
  }

  /** No later pair has the same normal name as pair i. */
  predicate LastOfItsName(pairs: seq<(string, Value)>, i: int)
    requires 0 <= i < |pairs|
  {
    forall j :: i < j < |pairs| ==> NormalKey(pairs[j].0) != NormalKey(pairs[i].0)
  }

  /** Merging two lists of pairs in turn is merging their concatenation. */
  lemma {:induction false} MergeConcat(t: Table, a: seq<(string, Value)>, b: seq<(string, Value)>)
    ensures Merge(Merge(t, a), b) == Merge(t, a + b)
    decreases |a|
  {
    if a == [] {
      assert a + b == b;
    } else {
      assert (a + b)[0] == a[0];
      assert (a + b)[1..] == a[1..] + b;
      MergeConcat(Put(t, a[0].0, a[0].1), a[1..], b);
    }
  }

  /** `Table.new( hash )` */
  function FromPairs(pairs: seq<(string, Value)>): Table {
    Merge(map[], pairs)
  }

  /** The string value of a header, when it is one. */
  function StringOf(v: Option<Value>): (r: Option<string>)
    ensures r.Some? <==> v.Some? && v.value.VStr?
  {
    if v.Some? && v.value.VStr? then Some(v.value.s) else None
  }

  /** The first leaf of `[ value ].flatten`: the value itself unless it is a
      list, whose first leaf is taken (none for an empty list). */
  function FirstLeaf(v: Value): (r: Option<Value>)
    ensures r.Some? ==> !r.value.VList?
    ensures !v.VList? ==> r == Some(v)
    decreases v, 1
  {
    match v
    case VList(items) => FirstLeafOf(items)
    case _ => Some(v)
  }

  function FirstLeafOf(items: seq<Value>): (r: Option<Value>)
    ensures r.Some? ==> !r.value.VList?
    decreases items, 0
  {
    if items == [] then None
    else
      assert items[0] in items;
      match FirstLeaf(items[0])
      case Some(x) => Some(x)
      case None => FirstLeafOf(items[1..])
  }

  /** `value.inspect`: a string quoted with its escapes, an integer in
      decimal, a list as `[a, b]` with its items inspected. */
  function InspectValue(v: Value): (r: string)
    ensures v.VStr? ==> r == Inspect(v.s)
    ensures v.VInt? ==> r == IntToString(v.n)
    ensures v.VList? ==> |r| >= 2 && r[0] == '[' && r[|r| - 1] == ']'
    ensures v.VList? && |v.items| == 1 ==> r == "[" + InspectValue(v.items[0]) + "]"
    decreases v, 1
  {
    match v
    case VStr(s) => Inspect(s)
    case VInt(n) => IntToString(n)
    case VList(items) =>
      var inner := InspectItems(items);
      assert |items| == 1 ==> inner == InspectValue(items[0]);
      "[" + inner + "]"
  }

  /** The inspected items joined with ", ". */
  function InspectItems(items: seq<Value>): (r: string)
    ensures |items| == 1 ==> r == InspectValue(items[0])
    decreases items, 0
  {
    if items == [] then ""
    else
      assert items[0] in items;
      if |items| == 1 then InspectValue(items[0])
      else InspectValue(items[0]) + ", " + InspectItems(items[1..])
  }

  /** Writing a header under one spelling and reading it under another
      (differing in case or in '-' against '_') gives the value back. */
  lemma PutGetAnySpelling(t: Table, name: string, other: string, v: Value)
    requires |name| == |other|
    requires forall i :: 0 <= i < |name| ==> KeyChar(name[i]) == KeyChar(other[i])
    ensures Get(Put(t, name, v), other) == Some(v)
  {
    assert NormalKey(name) == NormalKey(other);
  }
}
