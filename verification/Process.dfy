/** The middle pass: four rewrites of the document tree, one after the other. */
module Process {
  import opened Ltrf
  import RemoveWhitespace
  import Linebreaks
  import Paragraphs

  predicate IsDoc(o: Obj) { o.Node? && o.tag == DOC_TAG }

  /** What the check of the root's children says about one of them. */
  function Complaint(o: Obj): seq<string> {
    if o.Str? && !IsWhitespace(o.s) then ["__root has string that isn't whitespace -- probably a mistake."]
    else if o.Node? && o.tag != DOC_TAG then ["__root has Node that isn't __doc -- probably a mistake."]
    else []
  }

  function Complaints(es: seq<Obj>): seq<string> {
    if es == [] then [] else Complaint(es[0]) + Complaints(es[1..])
  }

  function Docs(es: seq<Obj>): seq<Obj> {
    if es == [] then [] else (if IsDoc(es[0]) then [es[0]] else []) + Docs(es[1..])
  }

  /** Keeps the documents of a root; the first complaint is thrown. */
  function ProcessRoot(root: Obj): (r: Result<Obj>)
    requires root.Node?
    ensures r.Success? ==> r.value.Node?
  {
    if root.tag != ROOT_TAG then Failure("Expected __root node.")
    else if Complaints(root.elems) != [] then Failure(Complaints(root.elems)[0])
    else Success(root.(elems := Docs(root.elems)))
  }

  datatype Pass = RootPass | WhitespacePass | LinebreakPass | ParagraphPass

  const PROCESSING_PASSES := [RootPass, WhitespacePass, LinebreakPass, ParagraphPass]

  function Apply(pass: Pass, n: Obj): (r: Result<Obj>)
    requires n.Node?
    ensures r.Success? ==> r.value.Node?
  {
    match pass
    case RootPass => ProcessRoot(n)
    case WhitespacePass => Success(RemoveWhitespace.RemWhitespace(n))
    case LinebreakPass => Success(Linebreaks.WithBreaks(n))
    case ParagraphPass =>
      if Paragraphs.Throws(n) then Failure(Paragraphs.BAD_BLOCK)
      else Success(Paragraphs.WithParas(n))
  }

  /** All the passes, as long as none throws. */
  function ApplyAll(passes: seq<Pass>, n: Obj): (r: Result<Obj>)
    requires n.Node?
    ensures r.Success? ==> r.value.Node?
    decreases |passes|
  {
    if passes == [] then Success(n)
    else
      var out := ApplyAll(passes[..|passes| - 1], n);
      if out.Failure? then out else Apply(passes[|passes| - 1], out.value)
  }

  method RunPass(pass: Pass, n: Obj) returns (r: Result<Obj>)
    requires n.Node?
    ensures r == Apply(pass, n)
  {
    match pass
    case RootPass => r := ProcessRoot(n);
    case WhitespacePass => r := Success(RemoveWhitespace.RemWhitespace(n));
    case LinebreakPass =>
      var out := Linebreaks.ProcessLinebreaks(n);
      r := Success(out);
    case ParagraphPass => r := Paragraphs.ProcessParagraphs(n);
  }

  method ProcessPass(root: Obj) returns (r: Result<Obj>)
    requires root.Node?
    ensures r == ApplyAll(PROCESSING_PASSES, root)
  {
    var out := root;
    for i := 0 to |PROCESSING_PASSES|
      invariant out.Node? && ApplyAll(PROCESSING_PASSES[..i], root) == Success(out)
    {
      hide Apply;
      var passes := PROCESSING_PASSES[..i + 1];
      assert passes[..i] == PROCESSING_PASSES[..i];
      r := RunPass(PROCESSING_PASSES[i], out);
      if r.Failure? {
        PrefixFails(PROCESSING_PASSES, i + 1, root);
        return;
      }
      out := r.value;
    }
    assert PROCESSING_PASSES[..|PROCESSING_PASSES|] == PROCESSING_PASSES;
    r := Success(out);
  }

  /** Once a pass has thrown, the rest do not run. */
  lemma {:induction false} PrefixFails(passes: seq<Pass>, k: nat, n: Obj)
    requires n.Node? && k <= |passes| && ApplyAll(passes[..k], n).Failure?
    ensures ApplyAll(passes, n) == ApplyAll(passes[..k], n)
    decreases |passes| - k
  {
    if k == |passes| {
      assert passes[..k] == passes;
    } else {
      assert passes[..k + 1][..k] == passes[..k];
      PrefixFails(passes, k + 1, n);
    }
  }

  /** The four passes written out. */
  lemma PipelineUnfolds(root: Obj)
    requires root.Node?
    ensures ApplyAll(PROCESSING_PASSES, root) ==
            var kept := ProcessRoot(root);
            if kept.Failure? then kept
            else Apply(ParagraphPass, Linebreaks.WithBreaks(RemoveWhitespace.RemWhitespace(kept.value)))
  {
    hide ProcessRoot, RemoveWhitespace.RemWhitespace, Linebreaks.WithBreaks, Paragraphs.WithParas;
    var ps := PROCESSING_PASSES;
    assert ps[..3][..2] == ps[..2] && ps[..2][..1] == ps[..1] && ps[..1][..0] == [];
    assert ApplyAll(ps[..1], root) == ProcessRoot(root) by {
      assert ApplyAll([], root) == Success(root);
    }
  }
}
