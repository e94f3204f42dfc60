/**
 Properties of the registry that take more than one call: the order in which
 freed handles come back, what a repeated removal does, how a render pass ends,
 and which listeners stay attached after their removal calls.
 */
module RegistryProperties {
  import opened Wrappers
  import opened Components

  /**
   Freeing two live handles and then creating twice hands them back in the
   opposite order: the free list is a stack.
   */
  method FreeListIsLifo(c: Components, x: nat, y: nat, tag: nat) returns (first: nat, second: nat)
    requires c.Valid()
    requires x != y && x < |c.elements| && y < |c.elements|
    requires x !in c.unusedIds && y !in c.unusedIds
    requires c.elements[x].Some? && c.elements[y].Some?
    modifies c
    ensures c.Valid()
    ensures first == y && second == x
    ensures c.unusedIds == old(c.unusedIds)
  {
    var s := c.Remove(x);
    s := c.Remove(y);
    first := c.Create(tag);
    second := c.Create(tag);
  }

  /**
   Removing a handle a second time ends as the first removal did and changes
   nothing more: the free list gains the handle at most once.
   */
  method RemoveTwice(c: Components, id: nat) returns (first: Status, second: Status)
    requires c.Valid()
    modifies c
    ensures c.Valid()
    ensures second == first
    ensures first == TypeError <==> old(id < |c.elements| && id !in c.unusedIds && c.elements[id].None?)
    ensures old(id < |c.elements| && id !in c.unusedIds && c.elements[id].Some?) ==>
              c.elements == old(c.elements)[id := None] && c.unusedIds == old(c.unusedIds) + [id]
    ensures !old(id < |c.elements| && id !in c.unusedIds && c.elements[id].Some?) ==>
              c.elements == old(c.elements) && c.unusedIds == old(c.unusedIds)
  {
    first := c.Remove(id);
    ghost var elements, unusedIds := c.elements, c.unusedIds;
    second := c.Remove(id);
    assert c.elements == elements && c.unusedIds == unusedIds;
  }

  /** A render pass started on a fresh registry gets handle 0 for the root. */
  method FirstRenderRootIsZero() returns (root: nat)
    ensures root == 0
  {
    var c := new Components();
    root := c.RenderBegin();
  }

  /**
   A second render_begin without render_end in between does not return 0: it
   returns the previous length of the table, here the root and one created node.
   */
  method RenderBeginTwice() returns (first: nat, child: nat, second: nat)
    ensures first == 0 && child == 1 && second == 2
  {
    var c := new Components();
    first := c.RenderBegin();
    child := c.Create(TAG_DIV);
    second := c.RenderBegin();
  }

  /** A render pass whose root has five children: every slot of the table is live. */
  method RootWithFiveChildren() returns (c: Components)
    ensures fresh(c) && c.Valid()
    ensures |c.elements| == 6 && c.unusedIds == []
    ensures forall i | 0 <= i < 6 :: c.elements[i].Some?
  {
    c := new Components();
    var root := c.RenderBegin();
    var k := 0;
    while k < 5
      invariant 0 <= k <= 5 && c.Valid()
      invariant |c.elements| == k + 1 && c.unusedIds == []
      invariant forall i | 0 <= i <= k :: c.elements[i].Some?
    {
      var h := c.Create(TAG_DIV);
      k := k + 1;
    }
  }

  /** Freeing handles 2 and 5 and creating twice gives 5 and then 2. */
  method LifoExample() returns (first: nat, second: nat)
    ensures first == 5 && second == 2
  {
    var c := RootWithFiveChildren();
    first, second := FreeListIsLifo(c, 2, 5, TAG_P);
  }

  /** A pass that creates two children and frees the second, then render_end and a new pass. */
  method SecondPassAfterFree() returns (c: Components)
    ensures fresh(c) && c.Valid()
    ensures c.elements == [Some(Root)] && c.unusedIds == [2] && c.nodeCount == 2
  {
    c := new Components();
    var root := c.RenderBegin();
    var a := c.Create(TAG_DIV);
    var b := c.Create(TAG_DIV);
    var s := c.Remove(b);
    c.RenderEnd();
    root := c.RenderBegin();
  }

  /**
   A handle freed in one render pass survives render_end: the next pass gets it
   back from create, past the end of the new table, which then has an empty slot
   that is not on the free list, and removing that slot raises.
   */
  method StaleFreeHandle() returns (h: nat, table: seq<Option<Node>>, s: Status)
    ensures h == 2 && table == [Some(Root), None, Some(Element(2))] && s == TypeError
  {
    var c := SecondPassAfterFree();
    h := c.Create(TAG_BUTTON);
    table := c.elements;
    s := c.Remove(1);
  }

  /**
   When the root's handle is freed, the next render pass puts the root in a slot
   that is still on the free list, and the next create overwrites the root's slot.
   */
  method RootSlotReused() returns (root: nat, h: nat)
    ensures root == 0 && h == 0
  {
    var c := new Components();
    root := c.RenderBegin();
    var s := c.Remove(root);
    c.RenderEnd();
    root := c.RenderBegin();
    assert c.unusedIds[0] == 0 && c.elements[0] == Some(Root);
    assert !c.FreeSlotsEmpty();
    h := c.Create(TAG_DIV);
  }

  /** A render pass with one child and no listeners anywhere. */
  method OneChild(tag: nat) returns (c: Components, h: nat, node: Node)
    ensures fresh(c) && c.Valid()
    ensures c.NodeAt(h) == Some(node)
    ensures c.dom.listeners == {} && c.listenerCount == 0
    ensures c.clickEvents == map[] && c.hoverEvents == map[]
  {
    c := new Components();
    var root := c.RenderBegin();
    h := c.Create(tag);
    node := c.NodeAt(h).value;
  }

  /** A click listener set on a node with none reports its code, until it is removed. */
  method ClickListenerRoundTrip(code: nat) returns (attached: set<nat>, detached: set<nat>)
    ensures attached == {code} && detached == {}
  {
    var c, h, node := OneChild(TAG_BUTTON);
    var s := c.SetClickEvent(h, code);
    assert c.dom.listeners == {Attachment(node, Click, Listener(0, code))};
    attached := c.Codes(node, Click);
    s := c.RemoveClickEvent(h, code);
    assert c.dom.listeners == {};
    detached := c.Codes(node, Click);
  }

  /**
   Setting a click listener twice files only the second under the handle, so
   removal detaches the second and the first keeps reporting its code.
   */
  method ClickListenerLeak(first: nat, second: nat) returns (left: set<nat>)
    ensures left == {first}
  {
    var c, h, node := OneChild(TAG_BUTTON);
    var s := c.SetClickEvent(h, first);
    s := c.SetClickEvent(h, second);
    s := c.RemoveClickEvent(h, second);
    assert c.dom.listeners == {Attachment(node, Click, Listener(0, first))};
    left := c.Codes(node, Click);
  }

  /** Removing a hover listener leaves it attached: it keeps reporting its code. */
  method HoverListenerSurvives(code: nat) returns (left: set<nat>)
    ensures left == {code}
  {
    var c, h, node := OneChild(TAG_DIV);
    var s := c.SetHoverEvent(h, code);
    s := c.RemoveHoverEvent(h, code);
    assert c.dom.listeners == {Attachment(node, MouseOver, Listener(0, code))};
    left := c.Codes(node, MouseOver);
  }
}
