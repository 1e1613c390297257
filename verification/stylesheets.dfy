/** `mountStylesheet(css)`: puts a `<style>` element with the given text in
    the document head, at most once per text, and hands back a handle whose
    `remove()` takes it out again.

    The module-level map from css text to style element is `applied`; style
    elements are named by identifiers, and `created` remembers the text of
    every element ever made. */
module Stylesheets {
  import opened Js

  datatype StyleNode = StyleNode(id: nat, text: string)

  datatype Doc = Doc(head: Option<seq<StyleNode>>, applied: map<string, nat>, created: map<nat, string>, nextId: nat)

  /** The three kinds of handle: no head, text already mounted, new element. */
  datatype Handle = NoOp | Shared(css: string) | Owned(css: string, id: nat)

  datatype Mounted = Mounted(doc: Doc, handle: Handle)

  /** `mountStylesheet(css)` */
  function Mount(d: Doc, css: string): (r: Mounted)
    ensures d.head.None? ==> r == Mounted(d, NoOp)
    ensures d.head.Some? && css in d.applied ==> r == Mounted(d, Shared(css))
    ensures d.head.Some? && css !in d.applied ==>
      && r.handle == Owned(css, d.nextId)
      && r.doc.head == Some(d.head.value + [StyleNode(d.nextId, css)])
      && r.doc.applied == d.applied[css := d.nextId]
  {
    if d.head.None? then Mounted(d, NoOp)
    else if css in d.applied then Mounted(d, Shared(css))
    else
      var node := StyleNode(d.nextId, css);
      Mounted(Doc(Some(d.head.value + [node]), d.applied[css := d.nextId], d.created[d.nextId := css], d.nextId + 1),
              Owned(css, d.nextId))
  }

  /** `style.remove()`: the element with that identifier leaves the head (a
      detached element stays detached). */
  function RemoveNode(head: seq<StyleNode>, id: nat): (r: seq<StyleNode>)
    ensures forall k :: 0 <= k < |r| ==> r[k] in head && r[k].id != id
    ensures forall k :: 0 <= k < |head| && head[k].id != id ==> head[k] in r
    ensures (forall k :: 0 <= k < |head| ==> head[k].id != id) ==> r == head
  {
    if head == [] then []
    else
      var rest := RemoveNode(head[1..], id);
      assert forall k :: 0 <= k < |rest| ==> rest[k] in head;
      if head[0].id == id then rest else [head[0]] + rest
  }

  /** Removing the element just appended, whose identifier no other element
      has, gives the head it was appended to. */
  lemma {:induction false} RemoveAppended(head: seq<StyleNode>, node: StyleNode)
    requires forall k :: 0 <= k < |head| ==> head[k].id != node.id
    ensures RemoveNode(head + [node], node.id) == head
  {
    if head == [] {
      assert RemoveNode([node], node.id) == RemoveNode([], node.id);
    } else {
      assert (head + [node])[1..] == head[1..] + [node];
      RemoveAppended(head[1..], node);
      assert [head[0]] + head[1..] == head;
    }
  }

  function RemoveFromHead(head: Option<seq<StyleNode>>, id: nat): Option<seq<StyleNode>> {
    match head
    case None => None
    case Some(h) => Some(RemoveNode(h, id))
  }

  /** The handle's `remove()`. A shared handle removes whatever element is
      recorded for its text at the time, if any; an owned handle removes its
      own element and forgets the text. */
  function Remove(d: Doc, h: Handle): (r: Doc)
    ensures h.NoOp? ==> r == d
    ensures h.Shared? && h.css !in d.applied ==> r == d
    ensures h.Shared? && h.css in d.applied ==>
      r == d.(head := RemoveFromHead(d.head, d.applied[h.css]), applied := d.applied - {h.css})
    ensures h.Owned? ==> r == d.(head := RemoveFromHead(d.head, h.id), applied := d.applied - {h.css})
  {
    match h
    case NoOp => d
    case Shared(css) =>
      if css in d.applied then d.(head := RemoveFromHead(d.head, d.applied[css]), applied := d.applied - {css})
      else d
    case Owned(css, id) => d.(head := RemoveFromHead(d.head, id), applied := d.applied - {css})
  }

  // ---------------------------------------------------------------------------
  // Invariant

  predicate InHead(d: Doc, id: nat) {
    d.head.Some? && exists k :: 0 <= k < |d.head.value| && d.head.value[k].id == id
  }

  /** Every recorded text names a style element in the head that holds that
      text; every element in the head was created with its text and has an
      identifier below `nextId`. */
  predicate Valid(d: Doc) {
    && (forall css :: css in d.applied ==> d.applied[css] in d.created && d.created[d.applied[css]] == css)
    && (forall css :: css in d.applied ==> InHead(d, d.applied[css]))
    && (d.head.Some? ==> forall k :: 0 <= k < |d.head.value| ==>
          var n := d.head.value[k]; n.id in d.created && d.created[n.id] == n.text && n.id < d.nextId)
    && (forall id :: id in d.created ==> id < d.nextId)
  }

  /** A handle from this document: an owned one names an element made for
      its text. */
  predicate Issued(d: Doc, h: Handle) {
    h.Owned? ==> h.id in d.created && d.created[h.id] == h.css
  }

  lemma MountValid(d: Doc, css: string)
    requires Valid(d)
    ensures Valid(Mount(d, css).doc) && Issued(Mount(d, css).doc, Mount(d, css).handle)
    ensures forall id :: id in d.created ==> id in Mount(d, css).doc.created && Mount(d, css).doc.created[id] == d.created[id]
  {
    if d.head.Some? && css !in d.applied {
      AddValid(d, css);
    }
  }

  /** Appending a new element for `css` and recording it keeps the document
      valid. */
  lemma AddValid(d: Doc, css: string)
    requires Valid(d) && d.head.Some? && css !in d.applied
    ensures Valid(Doc(Some(d.head.value + [StyleNode(d.nextId, css)]), d.applied[css := d.nextId],
      d.created[d.nextId := css], d.nextId + 1))
  {
    var h := d.head.value + [StyleNode(d.nextId, css)];
    var r := Doc(Some(h), d.applied[css := d.nextId], d.created[d.nextId := css], d.nextId + 1);
    forall c | c in r.applied
      ensures InHead(r, r.applied[c])
    {
      if c == css {
        assert h[|h| - 1].id == d.nextId;
      } else {
        var k :| 0 <= k < |d.head.value| && d.head.value[k].id == d.applied[c];
        assert h[k] == d.head.value[k];
      }
    }
  }

  lemma RemoveValid(d: Doc, h: Handle)
    requires Valid(d) && Issued(d, h)
    ensures Valid(Remove(d, h))
  {
    if !h.NoOp? && !(h.Shared? && h.css !in d.applied) {
      var gone := if h.Owned? then h.id else d.applied[h.css];
      DropValid(d, gone, h.css);
    }
  }

  /** Taking out the element `gone`, made for `css`, and forgetting `css`
      keeps the document valid. */
  lemma DropValid(d: Doc, gone: nat, css: string)
    requires Valid(d) && gone in d.created && d.created[gone] == css
    ensures Valid(d.(head := RemoveFromHead(d.head, gone), applied := d.applied - {css}))
  {
    var r := d.(head := RemoveFromHead(d.head, gone), applied := d.applied - {css});
    forall c | c in r.applied
      ensures InHead(r, r.applied[c])
    {
      StillInHead(d, gone, d.applied[c]);
    }
  }

  /** An element other than `gone` that was in the head stays in it. */
  lemma StillInHead(d: Doc, gone: nat, id: nat)
    requires InHead(d, id) && id != gone
    ensures InHead(d.(head := RemoveFromHead(d.head, gone)), id)
  {
    var k :| 0 <= k < |d.head.value| && d.head.value[k].id == id;
    var node := d.head.value[k];
    var rest := RemoveNode(d.head.value, gone);
    assert node in rest;
    var j :| 0 <= j < |rest| && rest[j] == node;
  }

  // ---------------------------------------------------------------------------
  // Properties

  /** Without a head nothing is mounted and the handle does nothing. */
  lemma NoHeadNoEffect(d: Doc, css: string)
    requires d.head.None?
    ensures Mount(d, css).doc == d && Remove(Mount(d, css).doc, Mount(d, css).handle) == d
  {
  }

  /** Mounting a text not yet mounted and removing it with its handle puts
      the head and the record back as they were. */
  lemma MountThenRemove(d: Doc, css: string)
    requires Valid(d) && d.head.Some? && css !in d.applied
    ensures var m := Mount(d, css);
      Remove(m.doc, m.handle).head == d.head && Remove(m.doc, m.handle).applied == d.applied
  {
    var h := d.head.value + [StyleNode(d.nextId, css)];
    var removed := RemoveNode(h, d.nextId);
    RemoveAppended(d.head.value, StyleNode(d.nextId, css));
    assert removed == d.head.value;
    assert d.applied[css := d.nextId] - {css} == d.applied;
  }

  /** Mounting the same text twice adds one element; removing the second
      (shared) handle takes that element out, for both mounts. */
  lemma SharedRemoveTakesTheElement(d: Doc, css: string)
    requires Valid(d) && d.head.Some? && css !in d.applied
    ensures var first := Mount(d, css);
      var second := Mount(first.doc, css);
      && second.doc == first.doc && second.handle == Shared(css)
      && !InHead(Remove(second.doc, second.handle), d.nextId)
  {
  }
}
