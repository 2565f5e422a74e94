/** The virtual-node data model of src/vdom/structure.ts: a closed sum of text node,
    element, fragment and the empty item, each optionally bound to a subscribable. */
module Structure {
  import opened Wrappers

  /** The `__p` identifiers carried by the library's tagged objects. */
  datatype PostactIdentifier = VirtualElementId | VirtualFragmentId | VirtualTextNodeId

  /** The identity of a subscribable a node is bound to. */
  type SubscribableRef = nat

  /** An event listener: the event name and the identity of the callback. */
  datatype Listener = Listener(event: string, callback: nat)

  datatype VirtualItem =
    | TextNode(data: string, subscribable: Option<SubscribableRef>)
    | ElementNode(tag: string, children: seq<VirtualItem>, attributes: map<string, string>,
                  listeners: seq<Listener>, subscribable: Option<SubscribableRef>)
    | FragmentNode(children: seq<VirtualItem>, subscribable: Option<SubscribableRef>)
    | NullItem

  /** The `__p` field of an item; the empty item (`null`) has none. */
  function Identifier(item: VirtualItem): Option<PostactIdentifier> {
    match item
    case TextNode(_, _) => Some(VirtualTextNodeId)
    case ElementNode(_, _, _, _, _) => Some(VirtualElementId)
    case FragmentNode(_, _) => Some(VirtualFragmentId)
    case NullItem => None
  }

  /** `isPostact(id, item)`: the item carries exactly the identifier `id`. */
  predicate IsPostact(id: PostactIdentifier, item: VirtualItem) {
    Identifier(item) == Some(id)
  }

  function IsVe(item: VirtualItem): (r: bool)
    ensures r <==> item.ElementNode?
  {
    IsPostact(VirtualElementId, item)
  }

  function IsVf(item: VirtualItem): (r: bool)
    ensures r <==> item.FragmentNode?
  {
    IsPostact(VirtualFragmentId, item)
  }

  function IsVtn(item: VirtualItem): (r: bool)
    ensures r <==> item.TextNode?
  {
    IsPostact(VirtualTextNodeId, item)
  }

  /** `createVf(children, subscribable)`. */
  function CreateVf(children: seq<VirtualItem>, subscribable: Option<SubscribableRef>): (r: VirtualItem)
    ensures IsVf(r) && !IsVe(r) && !IsVtn(r)
    ensures r.children == children && r.subscribable == subscribable
  {
    FragmentNode(children, subscribable)
  }

  /** `createVtn(data, subscribable)`. */
  function CreateVtn(data: string, subscribable: Option<SubscribableRef>): (r: VirtualItem)
    ensures IsVtn(r) && !IsVe(r) && !IsVf(r)
    ensures r.data == data && r.subscribable == subscribable
  {
    TextNode(data, subscribable)
  }

  /** At most one of the three predicates holds of any item, and none holds of `null`. */
  lemma AtMostOneKind(item: VirtualItem)
    ensures !(IsVe(item) && IsVf(item)) && !(IsVe(item) && IsVtn(item)) && !(IsVf(item) && IsVtn(item))
    ensures item.NullItem? <==> !IsVe(item) && !IsVf(item) && !IsVtn(item)
  {
  }
}
