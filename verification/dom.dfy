// A page as a finite list of element records in document order. Each
// record names its parent by position; a parent always comes before its
// children, so following parents always ends at a root.

module Dom {
  import opened Maybe

  datatype Element = Element(tag: string, text: string, classes: set<string>, parent: Option<nat>)

  type Doc = seq<Element>

  /** Parents are earlier in document order. */
  predicate WellFormed(doc: Doc) {
    forall i :: 0 <= i < |doc| && doc[i].parent.Some? ==> doc[i].parent.value < i
  }

  /** The element `k` levels above `e`, if the page is that deep there. */
  function Up(doc: Doc, e: nat, k: nat): (r: Option<nat>)
    requires WellFormed(doc) && e < |doc|
    ensures r.Some? ==> r.value <= e
    decreases k
  {
    if k == 0 then Some(e)
    else match doc[e].parent
      case None => None
      case Some(p) => Up(doc, p, k - 1)
  }

  /** The loop `for i < steps: if parentElement then step up else break`:
      it climbs `steps` levels, or stops at the root it reaches first. */
  function Walk(doc: Doc, e: nat, steps: nat): (r: nat)
    requires WellFormed(doc) && e < |doc|
    ensures r <= e
    decreases steps
  {
    if steps == 0 then e
    else match doc[e].parent
      case None => e
      case Some(p) => Walk(doc, p, steps - 1)
  }

  /** The walk ends `steps` levels up when the page is that deep there, and
      at a root otherwise. */
  lemma {:induction false} WalkSpec(doc: Doc, e: nat, steps: nat)
    requires WellFormed(doc) && e < |doc|
    ensures Up(doc, e, steps).Some? ==> Walk(doc, e, steps) == Up(doc, e, steps).value
    ensures Up(doc, e, steps).None? ==> doc[Walk(doc, e, steps)].parent.None?
    decreases steps
  {
    if steps > 0 && doc[e].parent.Some? {
      WalkSpec(doc, doc[e].parent.value, steps - 1);
    }
  }

  /** Two pages with the same elements, tags, texts and parents; only class
      sets may differ. */
  predicate SameShape(a: Doc, b: Doc) {
    |a| == |b| &&
    forall i :: 0 <= i < |a| ==> a[i].tag == b[i].tag && a[i].text == b[i].text && a[i].parent == b[i].parent
  }

  /** Class changes keep a page well formed. */
  lemma ShapeWellFormed(a: Doc, b: Doc)
    requires WellFormed(a) && SameShape(a, b)
    ensures WellFormed(b)
  {
    forall i | 0 <= i < |b| && b[i].parent.Some? ensures b[i].parent.value < i {
      assert a[i].parent == b[i].parent;
    }
  }

  /** Walks only look at parents, so class changes never move them. */
  lemma {:induction false} WalkSameShape(a: Doc, b: Doc, e: nat, steps: nat)
    requires WellFormed(a) && SameShape(a, b) && e < |a|
    ensures WellFormed(b)
    ensures Walk(a, e, steps) == Walk(b, e, steps)
    decreases steps
  {
    if steps > 0 && a[e].parent.Some? {
      WalkSameShape(a, b, a[e].parent.value, steps - 1);
    }
  }

  /** `classList.add(on)` followed by `classList.remove(off)`. */
  function Mark(doc: Doc, i: nat, on: string, off: string): (r: Doc)
    requires i < |doc| && on != off
    ensures SameShape(doc, r)
    ensures on in r[i].classes && off !in r[i].classes
    ensures r[i].classes - {on, off} == doc[i].classes - {on, off}
    ensures forall j :: 0 <= j < |doc| && j != i ==> r[j] == doc[j]
  {
    doc[i := doc[i].(classes := doc[i].classes + {on} - {off})]
  }

  /** `classList.remove(a, b)`. */
  function Unmark(doc: Doc, i: nat, a: string, b: string): (r: Doc)
    requires i < |doc|
    ensures SameShape(doc, r)
    ensures a !in r[i].classes && b !in r[i].classes
    ensures r[i].classes - {a, b} == doc[i].classes - {a, b}
    ensures forall j :: 0 <= j < |doc| && j != i ==> r[j] == doc[j]
  {
    doc[i := doc[i].(classes := doc[i].classes - {a, b})]
  }

  /** `classList.add(c)`. */
  function AddClass(doc: Doc, i: nat, c: string): (r: Doc)
    requires i < |doc|
    ensures SameShape(doc, r)
    ensures r[i].classes == doc[i].classes + {c}
    ensures forall j :: 0 <= j < |doc| && j != i ==> r[j] == doc[j]
  {
    doc[i := doc[i].(classes := doc[i].classes + {c})]
  }

  /** Exactly one of a pair of marker classes is present. */
  predicate ExactlyOne(e: Element, a: string, b: string) {
    (a in e.classes) != (b in e.classes)
  }

  /** `document.querySelector(tag)`: the first element with the tag. */
  function First(doc: Doc, tag: string): Option<nat> {
    FirstFrom(doc, tag, 0)
  }

  /** The first element with the tag at or after position `i`. */
  function FirstFrom(doc: Doc, tag: string, i: nat): (r: Option<nat>)
    requires i <= |doc|
    ensures r.Some? ==> i <= r.value < |doc| && doc[r.value].tag == tag
    ensures r.Some? ==> forall j :: i <= j < r.value ==> doc[j].tag != tag
    ensures r.None? ==> forall j :: i <= j < |doc| ==> doc[j].tag != tag
    decreases |doc| - i
  {
    if i == |doc| then None
    else if doc[i].tag == tag then Some(i)
    else FirstFrom(doc, tag, i + 1)
  }
}
