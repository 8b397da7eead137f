/**
 * The read-only view of an RDF graph that the policy page needs. Every term is
 * represented by its string form (the `str()` of an IRI, blank node or literal),
 * and the graph by its triples in the order the store yields them.
 */
module RdfGraph {
  import opened Wrappers

  datatype Triple = Triple(subj: string, pred: string, obj: string)

  type Graph = seq<Triple>

  /** `graph.objects(s, p)`: the objects of the triples with subject `s` and predicate `p`, in graph order. */
  function Objects(g: Graph, s: string, p: string): (r: seq<string>)
    ensures |r| <= |g|
    ensures forall o :: o in r <==> Triple(s, p, o) in g
  {
    if |g| == 0 then []
    else
      assert g == [g[0]] + g[1..];
      var rest := Objects(g[1..], s, p);
      if g[0].subj == s && g[0].pred == p then [g[0].obj] + rest else rest
  }

  /** `graph.subjects(p, o)`: the subjects of the triples with predicate `p` and object `o`, in graph order. */
  function Subjects(g: Graph, p: string, o: string): (r: seq<string>)
    ensures |r| <= |g|
    ensures forall s :: s in r <==> Triple(s, p, o) in g
  {
    if |g| == 0 then []
    else
      assert g == [g[0]] + g[1..];
      var rest := Subjects(g[1..], p, o);
      if g[0].pred == p && g[0].obj == o then [g[0].subj] + rest else rest
  }

  /** A single triple contributes its object exactly when it matches. */
  lemma ObjectsSingle(t: Triple, s: string, p: string)
    ensures Objects([t], s, p) == if t.subj == s && t.pred == p then [t.obj] else []
  {
    assert [t][1..] == [];
  }

  /**
   * The objects of a graph are those of its first part followed by those of its
   * second: one entry per matching triple, in graph order.
   */
  lemma {:induction false} ObjectsAppend(g1: Graph, g2: Graph, s: string, p: string)
    ensures Objects(g1 + g2, s, p) == Objects(g1, s, p) + Objects(g2, s, p)
  {
    if |g1| == 0 {
      assert g1 + g2 == g2;
    } else {
      assert (g1 + g2)[1..] == g1[1..] + g2;
      ObjectsAppend(g1[1..], g2, s, p);
    }
  }

  /** A single triple contributes its subject exactly when it matches. */
  lemma SubjectsSingle(t: Triple, p: string, o: string)
    ensures Subjects([t], p, o) == if t.pred == p && t.obj == o then [t.subj] else []
  {
    assert [t][1..] == [];
  }

  /** The subjects of a graph are those of its first part followed by those of its second. */
  lemma {:induction false} SubjectsAppend(g1: Graph, g2: Graph, p: string, o: string)
    ensures Subjects(g1 + g2, p, o) == Subjects(g1, p, o) + Subjects(g2, p, o)
  {
    if |g1| == 0 {
      assert g1 + g2 == g2;
    } else {
      assert (g1 + g2)[1..] == g1[1..] + g2;
      SubjectsAppend(g1[1..], g2, p, o);
    }
  }

  /** `graph.value(s, p)`: some object of subject `s` under predicate `p` (the first one), if any. */
  function Value(g: Graph, s: string, p: string): (r: Option<string>)
    ensures r.None? <==> forall o :: Triple(s, p, o) !in g
    ensures r.Some? ==> Triple(s, p, r.value) in g
  {
    var os := Objects(g, s, p);
    if |os| == 0 then None
    else
      assert os[0] in os;
      Some(os[0])
  }

  /** `Value` yields the object of the earliest matching triple. */
  lemma {:induction false} ValueIsFirstMatch(g: Graph, s: string, p: string, k: nat)
    requires k < |g| && g[k].subj == s && g[k].pred == p
    requires forall j :: 0 <= j < k ==> !(g[j].subj == s && g[j].pred == p)
    ensures Value(g, s, p) == Some(g[k].obj)
  {
    if k > 0 {
      ValueIsFirstMatch(g[1..], s, p, k - 1);
    }
  }
}
