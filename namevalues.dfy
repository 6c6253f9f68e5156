/** NameValueCollection, the container both the header options and the
    parsed POST body are returned in: the pairs in the order they were
    added, looked up by name ignoring case, with several values under one
    name joined by commas. */
module NameValues {
  import opened Wrappers
  import opened Strings

  /** The pairs passed to Add, oldest first. */
  type NameValueCollection = seq<(string, string)>

  /** Every value added under a name equal to `name` ignoring case, oldest
      first. */
  function ValuesOf(c: NameValueCollection, name: string): (vs: seq<string>)
    ensures |vs| <= |c|
    ensures vs == [] <==> forall i :: 0 <= i < |c| ==> !EqualsIgnoreCase(c[i].0, name)
  {
    if c == [] then []
    else
      var rest := ValuesOf(c[..|c| - 1], name);
      var last := c[|c| - 1];
      assert forall i :: 0 <= i < |c| - 1 ==> c[..|c| - 1][i] == c[i];
      if EqualsIgnoreCase(last.0, name) then rest + [last.1] else rest
  }

  /** The values joined with ',' as NameValueCollection.Get does. */
  function Join(vs: seq<string>): (s: string)
    requires vs != []
    ensures |vs| == 1 ==> s == vs[0]
  {
    if |vs| == 1 then vs[0] else Join(vs[..|vs| - 1]) + "," + vs[|vs| - 1]
  }

  /** The indexer c[name]: null (None) when no pair has that name, else
      every value under it joined with ','. */
  function Get(c: NameValueCollection, name: string): (r: Option<string>)
    ensures r.None? <==> forall i :: 0 <= i < |c| ==> !EqualsIgnoreCase(c[i].0, name)
  {
    var vs := ValuesOf(c, name);
    if vs == [] then None else Some(Join(vs))
  }

  /** Add(name, value) as seen through the indexer: a lookup under an
      unrelated name is unchanged, and one under the same name (ignoring
      case) gains the new value after a comma, or is the new value alone. */
  lemma {:induction false} GetAfterAdd(c: NameValueCollection, name: string, value: string, key: string)
    ensures !EqualsIgnoreCase(name, key) ==> Get(c + [(name, value)], key) == Get(c, key)
    ensures EqualsIgnoreCase(name, key) ==>
              Get(c + [(name, value)], key)
              == if Get(c, key).None? then Some(value) else Some(Get(c, key).value + "," + value)
  {
    var c' := c + [(name, value)];
    assert c'[..|c'| - 1] == c;
    var vs := ValuesOf(c, key);
    if EqualsIgnoreCase(name, key) {
      assert ValuesOf(c', key) == vs + [value];
      if vs != [] {
        assert (vs + [value])[..|vs + [value]| - 1] == vs;
      }
    } else {
      assert ValuesOf(c', key) == vs;
    }
  }

  /** A name added exactly once reads back as the value added. */
  lemma {:induction false} GetOnlyPair(c: NameValueCollection, i: nat, key: string)
    requires i < |c| && EqualsIgnoreCase(c[i].0, key)
    requires forall j :: 0 <= j < |c| && j != i ==> !EqualsIgnoreCase(c[j].0, key)
    ensures Get(c, key) == Some(c[i].1)
  {
    OnlyValue(c, i, key);
  }

  lemma {:induction false} OnlyValue(c: NameValueCollection, i: nat, key: string)
    requires i < |c| && EqualsIgnoreCase(c[i].0, key)
    requires forall j :: 0 <= j < |c| && j != i ==> !EqualsIgnoreCase(c[j].0, key)
    ensures ValuesOf(c, key) == [c[i].1]
    decreases |c|
  {
    var init := c[..|c| - 1];
    assert forall j :: 0 <= j < |c| - 1 ==> init[j] == c[j];
    if i < |c| - 1 {
      OnlyValue(init, i, key);
    } else {
      assert ValuesOf(init, key) == [];
    }
  }
}
