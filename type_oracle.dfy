/**
 The TypeScript type service, reduced to what the rule asks of it: the
 rendered text of a call's resolved return type. Looking up the
 TypeScript node, resolving the signature and rendering its return type are
 one oracle here; a call for which any of those steps yields nothing is
 simply absent from the map.
 */
module TypeOracle {
  import opened EsTree

  type Renderings = map<NodeId, string>

  /** The prefix the call visitor and the direct logical check require. */
  const PromiseOfPrefix: string := "Promise<"
  /** The shorter prefix the recursive logical scan requires. */
  const PromisePrefix: string := "Promise"

  /** The rendered return type of `call`, or None when there is no TypeScript
      node or no resolved signature for it. */
  function ReturnTypeText(types: Renderings, call: NodeId): (text: Option<string>)
  {
    if call in types then Some(types[call]) else None
  }

  /** `String.prototype.startsWith`. */
  predicate StartsWith(s: string, prefix: string)
  {
    |prefix| <= |s| && s[..|prefix|] == prefix
  }

  /** The return type of `call` is known and renders as `Promise<…>`. A call
      with no rendering never passes, and every call that passes also passes
      the shorter test of RendersPromise. */
  predicate RendersPromiseOf(types: Renderings, call: NodeId): (b: bool)
    ensures b ==> call in types
    ensures b ==> RendersPromise(types, call)
  {
    var text := ReturnTypeText(types, call);
    if text.Some? && StartsWith(text.value, PromiseOfPrefix) then
      assert text.value[..|PromisePrefix|] == text.value[..|PromiseOfPrefix|][..|PromisePrefix|];
      true
    else
      false
  }

  /** The return type of `call` is known and its rendering starts with
      `Promise` (which also admits `PromiseLike<…>` and the like). */
  predicate RendersPromise(types: Renderings, call: NodeId): (b: bool)
    ensures b ==> call in types
    ensures call in types ==> (b <==> |types[call]| >= 7 && types[call][..7] == "Promise")
  {
    var text := ReturnTypeText(types, call);
    text.Some? && StartsWith(text.value, PromisePrefix)
  }

  /** Every `Promise<…>` rendering passes the shorter test too; the converse
      fails, e.g. for `PromiseLike<string>`. */
  lemma PromiseOfIsPromise(types: Renderings, call: NodeId)
    ensures RendersPromiseOf(types, call) ==> RendersPromise(types, call)
    ensures !RendersPromiseOf(map[call := "PromiseLike<string>"], call)
    ensures RendersPromise(map[call := "PromiseLike<string>"], call)
  {
    var like := "PromiseLike<string>";
    assert like[..|PromiseOfPrefix|][7] == 'L';
    assert like[..|PromisePrefix|] == PromisePrefix;
  }
}
