/** The pass that drops whitespace strings other than single newlines. */
module RemoveWhitespace {
  import opened Ltrf

  predicate IsDropped(o: Obj) { IsBlank(o) && o != NEWLINE }

  function RemWhitespace(n: Obj): (r: Obj)
    requires n.Node?
    ensures r.Node? && r.tag == n.tag && r.kv == n.kv
    decreases n, 0
  {
    n.(elems := RemElems(n.elems))
  }

  function RemElem(o: Obj): (r: seq<Obj>)
    decreases o, 1
  {
    if IsDropped(o) then [] else if o.Node? then [RemWhitespace(o)] else [o]
  }

  function RemElems(es: seq<Obj>): seq<Obj>
    decreases es
  {
    if es == [] then [] else RemElem(es[0]) + RemElems(es[1..])
  }
}
