// fsimgtoc's printer of file system images as C array initializers, and the
// array that such an initializer stands for.
module SparsePrinter {
  import opened Words

  // The parts of an initializer list that matter: designators "[i]=" and values "v,". White space is left out.
  datatype Item = Designator(index: nat) | Value(v: byte)


  // ----- section 6.7.8 of ISO/IEC 9899:1999

  // The array so far, and the element that the next value without a designator initializes.
  datatype Progress = Progress(data: seq<byte>, next: nat)

  function ZeroBytes(n: nat): (zs: seq<byte>)
    ensures |zs| == n && forall k :: 0 <= k < n ==> zs[k] == 0
  {
    if n == 0 then [] else ZeroBytes(n - 1) + [0]
  }

  /** Elements that nothing initializes are zero; a value past the end of the array violates a constraint. */
  function Initialize(items: seq<Item>, size: nat): (p: Option<Progress>)
    ensures p.Some? ==> |p.value.data| == size
  {
    if items == [] then Some(Progress(ZeroBytes(size), 0))
    else
      var before := Initialize(items[..|items| - 1], size);
      if before.None? then None
      else match items[|items| - 1]
        case Designator(i) => if i < size then Some(before.value.(next := i)) else None
        case Value(v) =>
          var at := before.value.next;
          if at < size then Some(Progress(before.value.data[at := v], at + 1)) else None
  }

  /** The array that a definition with this list declares. The list must not be empty. */
  function Meaning(items: seq<Item>, size: nat): Option<seq<byte>> {
    if items == [] then None
    else match Initialize(items, size)
      case None => None
      case Some(p) => Some(p.data)
  }

  lemma InitializeMore(items: seq<Item>, item: Item)
    ensures (items + [item])[..|items + [item]| - 1] == items
  {
  }

  // ----- print

  /** The list built so far means the bytes read so far, and 'last' is the next implicit index. */
  ghost predicate PrintedSoFar(items: seq<Item>, image: seq<byte>, n: nat, last: nat) {
    && last <= n <= |image|
    && (forall k :: last <= k < n ==> image[k] == 0)
    && var p := Initialize(items, |image|);
       && p.Some? && p.value.next == last
       && (forall k :: 0 <= k < |image| ==> p.value.data[k] == if k < n then image[k] else 0)
  }

  // One value or designator.
  lemma Emit(items: seq<Item>, item: Item, size: nat, data: seq<byte>, next: nat)
    requires Initialize(items, size) == Some(Progress(data, next))
    requires item.Value? ==> next < size
    requires item.Designator? ==> item.index < size
    ensures next < size || item.Designator?
    ensures Initialize(items + [item], size) ==
            Some(if item.Value? then Progress(data[next := item.v], next + 1) else Progress(data, item.index))
  {
    InitializeMore(items, item);
  }

  /** print: zeros are skipped if designators may be used; after a gap of four or more the next value gets a designator.
      The list means the image, and is one that C accepts, if and only if something had to be printed. */
  method Print(image: seq<byte>, designated: bool) returns (items: seq<Item>)
    ensures Initialize(items, |image|).Some? && Initialize(items, |image|).value.data == image
    ensures Meaning(items, |image|) == Some(image) <==>
            if designated then exists k :: 0 <= k < |image| && image[k] != 0 else image != []
  {
    items := [];
    var n, last := 0, 0;
    while n < |image|
      invariant PrintedSoFar(items, image, n, last)
      invariant !designated ==> last == n
      invariant items == [] <==> last == 0
      invariant last == 0 <==> forall k :: 0 <= k < n ==> designated && image[k] == 0
    {
      var c := image[n];
      if !(c == 0 && designated) {
        ghost var start := last;
        if last <= n - 4 {
          Emit(items, Designator(n), |image|, Initialize(items, |image|).value.data, last);
          items := items + [Designator(n)];
          last := n;
        } else {
          while last < n
            invariant start <= last <= n && PrintedSoFar(items, image, n, last)
          {
            Emit(items, Value(0), |image|, Initialize(items, |image|).value.data, last);
            items := items + [Value(0)];
            last := last + 1;
          }
        }
        Emit(items, Value(c), |image|, Initialize(items, |image|).value.data, last);
        items := items + [Value(c)];
        last := n + 1;
      }
      n := n + 1;
    }
    var p := Initialize(items, |image|).value;
    assert p.data == image;
  }
}
