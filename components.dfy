/**
 The handle table of the element registry and the bookkeeping around it.

 The engine names every DOM node by an integer handle: an index into
 `elements`. Freed handles are kept on the `unusedIds` stack and reused last
 in, first out. Click and hover listeners are remembered per handle in
 `clickEvents` and `hoverEvents`. The browser's side is kept as an abstract
 record (`Dom`) of what was applied to which node: tag, classes, text, style
 strings and attached listeners. Nodes and listeners are opaque identities,
 numbered in order of creation.

 The host reports a stale handle (a slot holding null, or past the end) by
 throwing a TypeError at the first use of the slot; here that is the `TypeError`
 status, with every change made before the throw kept.
 */
module Components {
  import opened Wrappers
  import opened Codec

  const TAG_DIV := 1
  const TAG_P := 2
  const TAG_BUTTON := 3

  const CLASS_HORIZONTAL := 1
  const CLASS_VERTICAL := 2
  const CLASS_FLEX := 3
  const CLASS_GRID := 4

  /** The root node the host renders into, or the `serial`-th node it created. */
  datatype Node = Root | Element(serial: nat)

  datatype EventType = Click | MouseOver

  /** A listener closure: its identity and the event code it reports to the engine. */
  datatype Listener = Listener(id: nat, code: nat)

  /** `listener` is attached to `target` for events of type `event`. */
  datatype Attachment = Attachment(target: Node, event: EventType, listener: Listener)

  datatype StyleProperty = GridArea | GridTemplateAreas | GridTemplateRows | GridTemplateColumns

  /** What the registry has applied to the document, node by node. */
  datatype Dom = Dom(
    tags: map<Node, string>,
    classes: map<Node, set<string>>,
    text: map<Node, string>,
    style: map<(Node, StyleProperty), string>,
    listeners: set<Attachment>)

  /** How an operation ends: normally, or by the TypeError a stale handle raises. */
  datatype Status = Ok | TypeError

  /** The element name for a tag number; unknown numbers fall back to "div". */
  function TagName(tag: nat): (name: string)
    ensures name == "div" || name == "p" || name == "button"
    ensures name == "p" <==> tag == TAG_P
    ensures name == "button" <==> tag == TAG_BUTTON
  {
    if tag == TAG_DIV then "div"
    else if tag == TAG_P then "p"
    else if tag == TAG_BUTTON then "button"
    else "div"
  }

  /** The CSS class for a class number, if it has one. */
  function ClassName(classNumber: nat): (name: Option<string>)
    ensures name.Some? <==> CLASS_HORIZONTAL <= classNumber <= CLASS_GRID
    ensures name != Some("component")
  {
    if classNumber == CLASS_HORIZONTAL then Some("horizontal")
    else if classNumber == CLASS_VERTICAL then Some("vertical")
    else if classNumber == CLASS_FLEX then Some("flex")
    else if classNumber == CLASS_GRID then Some("grid")
    else None
  }

  /** Distinct class numbers name distinct classes. */
  lemma ClassNameInjective(a: nat, b: nat)
    requires ClassName(a).Some? && ClassName(a) == ClassName(b)
    ensures a == b
  {
  }

  predicate NoDuplicates(s: seq<nat>) {
    forall i, j | 0 <= i < j < |s| :: s[i] != s[j]
  }

  /**
   `s[i] = v` on a JavaScript array: overwrites inside the array, and past its
   end grows it, leaving empty slots between the old end and `i`.
   */
  function Store(s: seq<Option<Node>>, i: nat, v: Option<Node>): (r: seq<Option<Node>>)
    ensures |r| == if i < |s| then |s| else i + 1
    ensures r[i] == v
    ensures forall k | 0 <= k < |r| && k != i :: r[k] == if k < |s| then s[k] else None
  {
    if i < |s| then s[i := v] else s + seq(i - |s|, _ => None) + [v]
  }

  /** The classes a node has so far. */
  function ClassesOf(classes: map<Node, set<string>>, n: Node): set<string> {
    if n in classes then classes[n] else {}
  }

  /** The registry: the handle table, the listener maps, and what it did to the document. */
  class Components {
    var elements: seq<Option<Node>>
    var unusedIds: seq<nat>
    var clickEvents: map<nat, Listener>
    var hoverEvents: map<nat, Listener>
    var dom: Dom
    var nodeCount: nat
    var listenerCount: nat

    /**
     The free list has no repeats; a created node sits in at most one slot; node
     and listener numbers are below the counters that hand them out; and a hover
     listener is only ever attached for mouseover.
     */
    ghost predicate Valid()
      reads this
    {
      && NoDuplicates(unusedIds)
      && (forall i | 0 <= i < |elements| && elements[i].Some? && elements[i].value.Element? ::
            elements[i].value.serial < nodeCount)
      && (forall i, j | 0 <= i < j < |elements| && elements[i].Some? && elements[i].value.Element? ::
            elements[j] != elements[i])
      && (forall id | id in clickEvents :: clickEvents[id].id < listenerCount)
      && (forall id | id in hoverEvents :: hoverEvents[id].id < listenerCount)
      && (forall a | a in dom.listeners :: a.listener.id < listenerCount)
      && (forall id, a | id in hoverEvents && a in dom.listeners && a.listener == hoverEvents[id] ::
            a.event == MouseOver)
    }

    /** Every free handle inside the table names an empty slot. */
    ghost predicate FreeSlotsEmpty()
      reads this
    {
      forall k | 0 <= k < |unusedIds| && unusedIds[k] < |elements| :: elements[unusedIds[k]].None?
    }

    /** The node a handle names, or None for a null, empty or out-of-range slot. */
    function NodeAt(id: nat): Option<Node>
      reads this
    {
      if id < |elements| then elements[id] else None
    }

    /**
     The event codes a node reports to the engine for events of type `ev`. As a
     set it shows each code once; two listeners with one code on one node report
     it once each, and that multiplicity is kept in `dom.listeners`.
     */
    function Codes(n: Node, ev: EventType): set<nat>
      reads this
    {
      set a | a in dom.listeners && a.target == n && a.event == ev :: a.listener.code
    }

    constructor ()
      ensures Valid() && FreeSlotsEmpty()
      ensures elements == [] && unusedIds == []
      ensures clickEvents == map[] && hoverEvents == map[]
      ensures dom == Dom(map[], map[], map[], map[], {})
      ensures nodeCount == 0 && listenerCount == 0
    {
      elements := [];
      unusedIds := [];
      clickEvents := map[];
      hoverEvents := map[];
      dom := Dom(map[], map[], map[], map[], {});
      nodeCount := 0;
      listenerCount := 0;
    }

    /** element_render_begin: puts the root in a new slot and returns its handle. */
    method RenderBegin() returns (id: nat)
      requires Valid()
      modifies this
      ensures Valid()
      ensures id == old(|elements|)
      ensures elements == old(elements) + [Some(Root)]
      ensures unusedIds == old(unusedIds)
      ensures clickEvents == old(clickEvents) && hoverEvents == old(hoverEvents)
      ensures dom == old(dom)
      ensures nodeCount == old(nodeCount) && listenerCount == old(listenerCount)
      ensures old(FreeSlotsEmpty()) && id !in unusedIds ==> FreeSlotsEmpty()
    {
      id := |elements|;
      elements := elements + [Some(Root)];
    }

    /** element_render_end: forgets every slot, but not the free list. */
    method RenderEnd()
      requires Valid()
      modifies this
      ensures Valid() && FreeSlotsEmpty()
      ensures elements == []
      ensures unusedIds == old(unusedIds)
      ensures clickEvents == old(clickEvents) && hoverEvents == old(hoverEvents)
      ensures dom == old(dom)
      ensures nodeCount == old(nodeCount) && listenerCount == old(listenerCount)
    {
      elements := [];
    }

    /**
     element_create: makes a fresh node of the given tag with class "component",
     and stores it under the most recently freed handle, or a new one at the end.
     */
    method Create(tag: nat) returns (id: nat)
      requires Valid()
      modifies this
      ensures Valid()
      ensures old(|unusedIds|) > 0 ==>
                id == old(unusedIds[|unusedIds| - 1]) && unusedIds == old(unusedIds[..|unusedIds| - 1])
      ensures old(|unusedIds|) == 0 ==> id == old(|elements|) && unusedIds == []
      ensures elements == Store(old(elements), id, Some(Element(old(nodeCount))))
      ensures nodeCount == old(nodeCount) + 1 && listenerCount == old(listenerCount)
      ensures clickEvents == old(clickEvents) && hoverEvents == old(hoverEvents)
      ensures dom == old(dom).(tags := old(dom.tags)[Element(old(nodeCount)) := TagName(tag)],
                               classes := old(dom.classes)[Element(old(nodeCount)) := {"component"}])
      ensures old(FreeSlotsEmpty()) ==> FreeSlotsEmpty() && (id < old(|elements|) ==> old(elements[id]).None?)
    {
      var node := Element(nodeCount);
      nodeCount := nodeCount + 1;
      dom := dom.(tags := dom.tags[node := TagName(tag)], classes := dom.classes[node := {"component"}]);
      if |unusedIds| > 0 {
        id := unusedIds[|unusedIds| - 1];
        unusedIds := unusedIds[..|unusedIds| - 1];
      } else {
        id := |elements|;
      }
      elements := Store(elements, id, Some(node));
    }

    /**
     element_remove: frees a handle that is in range and not already free. A free
     or out-of-range handle is ignored; an empty slot that is not free raises.
     */
    method Remove(elemId: nat) returns (status: Status)
      requires Valid()
      modifies this
      ensures Valid()
      ensures old(elemId < |elements| && elemId !in unusedIds && elements[elemId].Some?) ==>
                status == Ok && elements == old(elements)[elemId := None] && unusedIds == old(unusedIds) + [elemId]
      ensures !old(elemId < |elements| && elemId !in unusedIds && elements[elemId].Some?) ==>
                elements == old(elements) && unusedIds == old(unusedIds)
      ensures status == TypeError <==> old(elemId < |elements| && elemId !in unusedIds && elements[elemId].None?)
      ensures clickEvents == old(clickEvents) && hoverEvents == old(hoverEvents)
      ensures dom == old(dom)
      ensures nodeCount == old(nodeCount) && listenerCount == old(listenerCount)
      ensures old(FreeSlotsEmpty()) ==> FreeSlotsEmpty()
    {
      status := Ok;
      if elemId < |elements| && elemId !in unusedIds {
        if elements[elemId].None? {
          status := TypeError;
        } else {
          elements := elements[elemId := None];
          unusedIds := unusedIds + [elemId];
        }
      }
    }

    /** element_setTextS: the node's text becomes the bytes read one character per byte. */
    method SetTextS(elemId: nat, bytes: seq<byte>) returns (status: Status)
      requires Valid()
      modifies this
      ensures Valid()
      ensures old(NodeAt(elemId)).Some? ==>
                status == Ok && dom == old(dom).(text := old(dom.text)[old(NodeAt(elemId)).value := NarrowText(bytes)])
      ensures old(NodeAt(elemId)).None? ==> status == TypeError && dom == old(dom)
      ensures elements == old(elements) && unusedIds == old(unusedIds)
      ensures clickEvents == old(clickEvents) && hoverEvents == old(hoverEvents)
      ensures nodeCount == old(nodeCount) && listenerCount == old(listenerCount)
    {
      var s := DecodeText(bytes);
      var node := NodeAt(elemId);
      if node.None? {
        return TypeError;
      }
      dom := dom.(text := dom.text[node.value := s]);
      status := Ok;
    }

    /**
     element_setClickEvent: makes a new listener for the code, files it under the
     handle (before the handle is checked) and attaches it for clicks.
     */
    method SetClickEvent(elemId: nat, clickEvent: nat) returns (status: Status)
      requires Valid()
      modifies this
      ensures Valid()
      ensures listenerCount == old(listenerCount) + 1
      ensures clickEvents == old(clickEvents)[elemId := Listener(old(listenerCount), clickEvent)]
      ensures old(NodeAt(elemId)).Some? ==>
                status == Ok &&
                dom == old(dom).(listeners := old(dom.listeners) +
                                   {Attachment(old(NodeAt(elemId)).value, Click, Listener(old(listenerCount), clickEvent))})
      ensures old(NodeAt(elemId)).None? ==> status == TypeError && dom == old(dom)
      ensures elements == old(elements) && unusedIds == old(unusedIds)
      ensures hoverEvents == old(hoverEvents) && nodeCount == old(nodeCount)
    {
      var listener := Listener(listenerCount, clickEvent);
      listenerCount := listenerCount + 1;
      clickEvents := clickEvents[elemId := listener];
      var node := NodeAt(elemId);
      if node.None? {
        return TypeError;
      }
      dom := dom.(listeners := dom.listeners + {Attachment(node.value, Click, listener)});
      status := Ok;
    }

    /**
     element_removeClickEvent: detaches, for clicks, the listener last filed under
     the handle. The event code argument is not used.
     */
    method RemoveClickEvent(elemId: nat, clickEvent: nat) returns (status: Status)
      requires Valid()
      modifies this
      ensures Valid()
      ensures old(NodeAt(elemId)).Some? && elemId in clickEvents ==>
                status == Ok &&
                dom == old(dom).(listeners := old(dom.listeners) -
                                   {Attachment(old(NodeAt(elemId)).value, Click, clickEvents[elemId])})
      ensures old(NodeAt(elemId)).Some? && elemId !in clickEvents ==> status == Ok && dom == old(dom)
      ensures old(NodeAt(elemId)).None? ==> status == TypeError && dom == old(dom)
      ensures elements == old(elements) && unusedIds == old(unusedIds)
      ensures clickEvents == old(clickEvents) && hoverEvents == old(hoverEvents)
      ensures nodeCount == old(nodeCount) && listenerCount == old(listenerCount)
    {
      var node := NodeAt(elemId);
      if node.None? {
        return TypeError;
      }
      if elemId in clickEvents {
        dom := dom.(listeners := dom.listeners - {Attachment(node.value, Click, clickEvents[elemId])});
      }
      status := Ok;
    }

    /**
     element_setHoverEvent: makes a new listener for the code, files it under the
     handle (before the handle is checked) and attaches it for mouseover.
     */
    method SetHoverEvent(elemId: nat, hoverEvent: nat) returns (status: Status)
      requires Valid()
      modifies this
      ensures Valid()
      ensures listenerCount == old(listenerCount) + 1
      ensures hoverEvents == old(hoverEvents)[elemId := Listener(old(listenerCount), hoverEvent)]
      ensures old(NodeAt(elemId)).Some? ==>
                status == Ok &&
                dom == old(dom).(listeners := old(dom.listeners) +
                                   {Attachment(old(NodeAt(elemId)).value, MouseOver, Listener(old(listenerCount), hoverEvent))})
      ensures old(NodeAt(elemId)).None? ==> status == TypeError && dom == old(dom)
      ensures elements == old(elements) && unusedIds == old(unusedIds)
      ensures clickEvents == old(clickEvents) && nodeCount == old(nodeCount)
    {
      var listener := Listener(listenerCount, hoverEvent);
      listenerCount := listenerCount + 1;
      hoverEvents := hoverEvents[elemId := listener];
      var node := NodeAt(elemId);
      if node.None? {
        return TypeError;
      }
      dom := dom.(listeners := dom.listeners + {Attachment(node.value, MouseOver, listener)});
      status := Ok;
    }

    /**
     element_removeHoverEvent: detaches the hover listener filed under the handle,
     but for clicks, where it was never attached; so no listener is detached.
     */
    method RemoveHoverEvent(elemId: nat, clickEvent: nat) returns (status: Status)
      requires Valid()
      modifies this
      ensures Valid()
      ensures status == Ok <==> old(NodeAt(elemId)).Some?
      ensures dom == old(dom)
      ensures elements == old(elements) && unusedIds == old(unusedIds)
      ensures clickEvents == old(clickEvents) && hoverEvents == old(hoverEvents)
      ensures nodeCount == old(nodeCount) && listenerCount == old(listenerCount)
    {
      var node := NodeAt(elemId);
      if node.None? {
        return TypeError;
      }
      if elemId in hoverEvents {
        assert Attachment(node.value, Click, hoverEvents[elemId]) !in dom.listeners;
        dom := dom.(listeners := dom.listeners - {Attachment(node.value, Click, hoverEvents[elemId])});
      }
      status := Ok;
    }

    /** element_addClass: adds a known class to the node; an unknown class number does nothing. */
    method AddClass(elemId: nat, classNumber: nat) returns (status: Status)
      requires Valid()
      modifies this
      ensures Valid()
      ensures ClassName(classNumber).None? ==> status == Ok && dom == old(dom)
      ensures ClassName(classNumber).Some? && old(NodeAt(elemId)).Some? ==>
                status == Ok &&
                dom == old(dom).(classes := old(dom.classes)[old(NodeAt(elemId)).value :=
                                   ClassesOf(old(dom.classes), old(NodeAt(elemId)).value) + {ClassName(classNumber).value}])
      ensures ClassName(classNumber).Some? && old(NodeAt(elemId)).None? ==> status == TypeError && dom == old(dom)
      ensures elements == old(elements) && unusedIds == old(unusedIds)
      ensures clickEvents == old(clickEvents) && hoverEvents == old(hoverEvents)
      ensures nodeCount == old(nodeCount) && listenerCount == old(listenerCount)
    {
      var classStr := ClassName(classNumber);
      if classStr.None? {
        return Ok;
      }
      var node := NodeAt(elemId);
      if node.None? {
        return TypeError;
      }
      dom := dom.(classes := dom.classes[node.value := ClassesOf(dom.classes, node.value) + {classStr.value}]);
      status := Ok;
    }

    /** Assigns one style property of the node a handle names. */
    method ApplyStyle(elemId: nat, prop: StyleProperty, value: string) returns (status: Status)
      requires Valid()
      modifies this
      ensures Valid()
      ensures old(NodeAt(elemId)).Some? ==>
                status == Ok && dom == old(dom).(style := old(dom.style)[(old(NodeAt(elemId)).value, prop) := value])
      ensures old(NodeAt(elemId)).None? ==> status == TypeError && dom == old(dom)
      ensures elements == old(elements) && unusedIds == old(unusedIds)
      ensures clickEvents == old(clickEvents) && hoverEvents == old(hoverEvents)
      ensures nodeCount == old(nodeCount) && listenerCount == old(listenerCount)
    {
      var node := NodeAt(elemId);
      if node.None? {
        return TypeError;
      }
      dom := dom.(style := dom.style[(node.value, prop) := value]);
      status := Ok;
    }

    /** element_setGridArea: the node's grid-area becomes the name of the area id. */
    method SetGridArea(elemId: nat, gridArea: uint32) returns (status: Status)
      requires Valid()
      modifies this
      ensures Valid()
      ensures old(NodeAt(elemId)).Some? ==>
                status == Ok && dom == old(dom).(style := old(dom.style)[(old(NodeAt(elemId)).value, GridArea) := AreaName(gridArea)])
      ensures old(NodeAt(elemId)).None? ==> status == TypeError && dom == old(dom)
      ensures elements == old(elements) && unusedIds == old(unusedIds)
      ensures clickEvents == old(clickEvents) && hoverEvents == old(hoverEvents)
      ensures nodeCount == old(nodeCount) && listenerCount == old(listenerCount)
    {
      var name := EncodeArea(gridArea);
      status := ApplyStyle(elemId, GridArea, name);
    }

    /**
     element_setGridTemplateAreasS: the node's grid-template-areas becomes the
     template of the `width` by `height` grid of area ids, read row-major.
     */
    method SetGridTemplateAreasS(elemId: nat, areaInts: seq<uint32>, width: uint32, height: uint32)
      returns (status: Status)
      requires Valid()
      requires |areaInts| == width * height
      modifies this
      ensures Valid()
      ensures old(NodeAt(elemId)).Some? ==>
                status == Ok &&
                dom == old(dom).(style := old(dom.style)[(old(NodeAt(elemId)).value, GridTemplateAreas) :=
                                   TemplateAreas(areaInts, width, height)])
      ensures old(NodeAt(elemId)).None? ==> status == TypeError && dom == old(dom)
      ensures elements == old(elements) && unusedIds == old(unusedIds)
      ensures clickEvents == old(clickEvents) && hoverEvents == old(hoverEvents)
      ensures nodeCount == old(nodeCount) && listenerCount == old(listenerCount)
    {
      var templateStr := BuildTemplateAreas(areaInts, width, height);
      status := ApplyStyle(elemId, GridTemplateAreas, templateStr);
    }

    /** element_setGridTemplateRowsS: the node's grid-template-rows becomes the fr track list. */
    method SetGridTemplateRowsS(elemId: nat, numbers: seq<uint32>) returns (status: Status)
      requires Valid()
      modifies this
      ensures Valid()
      ensures old(NodeAt(elemId)).Some? ==>
                status == Ok && dom == old(dom).(style := old(dom.style)[(old(NodeAt(elemId)).value, GridTemplateRows) := FrTracks(numbers)])
      ensures old(NodeAt(elemId)).None? ==> status == TypeError && dom == old(dom)
      ensures elements == old(elements) && unusedIds == old(unusedIds)
      ensures clickEvents == old(clickEvents) && hoverEvents == old(hoverEvents)
      ensures nodeCount == old(nodeCount) && listenerCount == old(listenerCount)
    {
      var s := BuildFrTracks(numbers);
      status := ApplyStyle(elemId, GridTemplateRows, s);
    }

    /** element_setGridTemplateColumnsS: the node's grid-template-columns becomes the fr track list. */
    method SetGridTemplateColumnsS(elemId: nat, numbers: seq<uint32>) returns (status: Status)
      requires Valid()
      modifies this
      ensures Valid()
      ensures old(NodeAt(elemId)).Some? ==>
                status == Ok && dom == old(dom).(style := old(dom.style)[(old(NodeAt(elemId)).value, GridTemplateColumns) := FrTracks(numbers)])
      ensures old(NodeAt(elemId)).None? ==> status == TypeError && dom == old(dom)
      ensures elements == old(elements) && unusedIds == old(unusedIds)
      ensures clickEvents == old(clickEvents) && hoverEvents == old(hoverEvents)
      ensures nodeCount == old(nodeCount) && listenerCount == old(listenerCount)
    {
      var s := BuildFrTracks(numbers);
      status := ApplyStyle(elemId, GridTemplateColumns, s);
    }
  }
}
