// Value types and constants of the image list view: one image record, the
// cached texture slot of one index, the per-category dimensions and the cache
// limits, as the header declares them.

module ImageTypes {

  datatype Option<T> = None | Some(value: T)

  type Category = string

  /** One tile of content: where its image lives, its captions and its links. */
  datatype ImageData = ImageData(
    url: string,
    title: string,
    category: Category,
    description: string,
    id: string,
    thumbnailUrl: string,
    links: map<string, string>)

  /** Two records count as the same image when url, title, category and id agree. */
  predicate SameImage(a: ImageData, b: ImageData)
  {
    a.url == b.url && a.title == b.title && a.category == b.category && a.id == b.id
  }

  /** Same-image is an equivalence that ignores description, thumbnail and links. */
  lemma SameImageIgnoresMetadata(a: ImageData, b: ImageData, description: string, thumbnailUrl: string, links: map<string, string>)
    ensures SameImage(a, a)
    ensures SameImage(a, b) ==> SameImage(b, a)
    ensures SameImage(a, b) <==> SameImage(a.(description := description, thumbnailUrl := thumbnailUrl, links := links), b)
  {
  }

  /** Same-image is strictly coarser than structural equality. */
  lemma SameImageIsCoarserThanEquality()
    ensures exists a: ImageData, b: ImageData :: SameImage(a, b) && a != b
  {
    var a := ImageData("u", "t", "c", "", "1", "", map[]);
    var b := a.(description := "other");
    assert SameImage(a, b) && a != b;
  }

  /** Scene-graph node wrapper and texture handles; the null handle is the first constructor. */
  datatype NodeHandle = NullNode | Node(id: nat)
  datatype TextureHandle = NullTexture | Texture(id: nat)

  /** One slot of the texture cache. */
  datatype TexturedNode = TexturedNode(node: NodeHandle, texture: TextureHandle)

  /** A freshly constructed slot holds neither a node nor a texture. */
  const EmptySlot: TexturedNode := TexturedNode(NullNode, NullTexture)

  /** Node ids whose wrapper is deleted when the slot is cleaned up. */
  function ReleasedNodes(n: TexturedNode): (r: set<nat>)
    ensures n.node.NullNode? <==> r == {}
    ensures forall id :: id in r <==> n.node == Node(id)
  {
    if n.node.Node? then {n.node.id} else {}
  }

  /** Cleaning a slot deletes its node wrapper and forgets (never deletes) its texture. */
  function CleanupNode(n: TexturedNode): (r: TexturedNode)
    ensures r.node.NullNode? && r.texture.NullTexture?
  {
    EmptySlot
  }

  datatype CategoryDimensions = CategoryDimensions(
    rowHeight: int,
    posterHeight: int,
    posterWidth: int,
    itemSpacing: real)

  // Cache limits.
  const MaxTextureCache: int := 20
  const MaxVisibleRows: int := 3
  const CleanupThreshold: int := MaxVisibleRows * 10

  // Initial values of the view's fields.
  const DefaultCount: int := 15
  const DefaultItemWidth: real := 200.0
  const DefaultItemHeight: real := 200.0
  const DefaultSpacing: real := 10.0
  const DefaultRowSpacing: real := 10.0
  const DefaultItemsPerRow: int := 5
  const DefaultTitleHeight: int := 25
  const InitialHeight: real := 300.0
}
