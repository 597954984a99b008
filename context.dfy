/** `context_to_dict`: a template context (a stack of dictionaries) flattened into one
    dictionary; anything that is not a context is handed back as it came. */
module ContextDict {

  /** A template context holds its layers in `dicts`, the later ones pushed on top;
      `Other` stands for any value that is not a context. */
  datatype Context<V> = ContextOf(dicts: seq<map<string, V>>) | Other(value: map<string, V>)

  /** The dictionary `update` builds when the layers are applied in order:
      each layer's keys overwrite those of the layers before it. */
  function Flatten<V>(dicts: seq<map<string, V>>): map<string, V>
    decreases |dicts|
  {
    if dicts == [] then map[] else Flatten(dicts[..|dicts| - 1]) + dicts[|dicts| - 1]
  }

  /** The flattened dictionary has exactly the keys of the layers, and each key holds the
      value of the last layer that defines it. */
  lemma {:induction false} FlattenLast<V>(dicts: seq<map<string, V>>, key: string)
    ensures key in Flatten(dicts) <==> exists i :: 0 <= i < |dicts| && key in dicts[i]
    ensures forall i :: 0 <= i < |dicts| && key in dicts[i] && (forall j :: i < j < |dicts| ==> key !in dicts[j]) ==>
              key in Flatten(dicts) && Flatten(dicts)[key] == dicts[i][key]
    decreases |dicts|
  {
    if dicts != [] {
      var init := dicts[..|dicts| - 1];
      FlattenLast(init, key);
      assert forall i :: 0 <= i < |init| ==> init[i] == dicts[i];
    }
  }

  /** `context_to_dict(context)`. */
  method ContextToDict<V>(context: Context<V>) returns (r: map<string, V>)
    ensures r == (if context.ContextOf? then Flatten(context.dicts) else context.value)
  {
    if context.Other? {
      return context.value;
    }
    var flat: map<string, V> := map[];
    var dicts := context.dicts;
    for i := 0 to |dicts|
      invariant flat == Flatten(dicts[..i])
    {
      assert dicts[..i + 1][..i] == dicts[..i];
      flat := flat + dicts[i];
    }
    assert dicts[..|dicts|] == dicts;
    r := flat;
  }
}
