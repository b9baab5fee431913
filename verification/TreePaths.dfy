/**
 Node paths of the education hierarchy: the identifiers of a node's ancestors and its own, each
 followed by a slash. Identifiers are UUIDs, written in their usual 36 characters.
*/
module TreePaths {
  function Power16(n: nat): (p: nat)
    ensures p >= 1
  {
    if n == 0 then 1 else 16 * Power16(n - 1)
  }

  /** A UUID: a number of 32 hexadecimal digits. */
  type NodeId = n: nat | n < Power16(32) witness 0

  function HexDigit(d: nat): char
    requires d < 16
  {
    if d < 10 then '0' + d as char else 'a' + (d - 10) as char
  }

  function Hex(n: nat, digits: nat): (s: string)
    ensures |s| == digits
  {
    if digits == 0 then "" else Hex(n / 16, digits - 1) + [HexDigit(n % 16)]
  }

  lemma {:induction false} HexIsFaithful(a: nat, b: nat, digits: nat)
    requires a < Power16(digits) && b < Power16(digits) && Hex(a, digits) == Hex(b, digits)
    ensures a == b
  {
    if digits > 0 {
      assert Hex(a, digits)[..digits - 1] == Hex(a / 16, digits - 1);
      assert Hex(b, digits)[..digits - 1] == Hex(b / 16, digits - 1);
      assert Hex(a, digits)[digits - 1] == HexDigit(a % 16) && Hex(b, digits)[digits - 1] == HexDigit(b % 16);
      HexIsFaithful(a / 16, b / 16, digits - 1);
    }
  }

  const WIDTH := 36

  function Uuid(id: NodeId): (s: string)
    ensures |s| == WIDTH
  {
    var h := Hex(id, 32);
    h[..8] + "-" + h[8..12] + "-" + h[12..16] + "-" + h[16..20] + "-" + h[20..]
  }

  lemma {:induction false} UuidIsFaithful(a: NodeId, b: NodeId)
    requires Uuid(a) == Uuid(b)
    ensures a == b
  {
    var g, h := Hex(a, 32), Hex(b, 32);
    assert Uuid(a)[..8] == g[..8] && Uuid(b)[..8] == h[..8];
    assert Uuid(a)[9..13] == g[8..12] && Uuid(b)[9..13] == h[8..12];
    assert Uuid(a)[14..18] == g[12..16] && Uuid(b)[14..18] == h[12..16];
    assert Uuid(a)[19..23] == g[16..20] && Uuid(b)[19..23] == h[16..20];
    assert Uuid(a)[24..] == g[20..] && Uuid(b)[24..] == h[20..];
    assert g == g[..8] + g[8..12] + g[12..16] + g[16..20] + g[20..];
    assert h == h[..8] + h[8..12] + h[12..16] + h[16..20] + h[20..];
    HexIsFaithful(a, b, 32);
  }

  function Segments(ids: seq<NodeId>): string {
    if ids == [] then "" else Uuid(ids[0]) + "/" + Segments(ids[1..])
  }

  /** A node's path, from the identifiers of its ancestors and itself. */
  function PathOf(ids: seq<NodeId>): string {
    "/" + Segments(ids)
  }

  /** Paths as the hierarchy writes them start with a slash. */
  predicate Rooted(path: string) {
    path != "" && path[0] == '/'
  }

  lemma {:induction false} ChildPathExtendsItsParents(ids: seq<NodeId>, id: NodeId)
    ensures PathOf(ids + [id]) == PathOf(ids) + Uuid(id) + "/"
  {
    SegmentsAppended(ids, id);
  }

  lemma {:induction false} SegmentsAppended(ids: seq<NodeId>, id: NodeId)
    ensures Segments(ids + [id]) == Segments(ids) + (Uuid(id) + "/")
  {
    if ids == [] {
      assert Segments([id]) == Uuid(id) + "/" + Segments([id][1..]);
    } else {
      assert (ids + [id])[1..] == ids[1..] + [id];
      SegmentsAppended(ids[1..], id);
    }
  }

  lemma {:induction false} SegmentsAreAncestry(a: seq<NodeId>, b: seq<NodeId>)
    ensures Segments(a) <= Segments(b) <==> a <= b
  {
    if a != [] && b != [] {
      var sa, sb := Segments(a), Segments(b);
      assert sa[..WIDTH] == Uuid(a[0]) && sb[..WIDTH] == Uuid(b[0]);
      assert sa[WIDTH + 1..] == Segments(a[1..]) && sb[WIDTH + 1..] == Segments(b[1..]);
      assert sa[WIDTH] == '/' && sb[WIDTH] == '/';
      SegmentsAreAncestry(a[1..], b[1..]);
      assert a <= b <==> a[0] == b[0] && a[1..] <= b[1..];
      assert sa == sa[..WIDTH] + "/" + sa[WIDTH + 1..] && sb == sb[..WIDTH] + "/" + sb[WIDTH + 1..];
      if sa <= sb {
        assert sb[..WIDTH] == sa[..WIDTH];
        UuidIsFaithful(a[0], b[0]);
        assert sa[WIDTH + 1..] <= sb[WIDTH + 1..];
      }
    }
  }

  /** One path starts with another exactly when the other node is an ancestor or the node itself: text
      comparison of paths never confuses two identifiers. */
  lemma {:induction false} PrefixIsAncestry(a: seq<NodeId>, b: seq<NodeId>)
    ensures PathOf(a) <= PathOf(b) <==> a <= b
    ensures Rooted(PathOf(a))
  {
    SegmentsAreAncestry(a, b);
    var pa, pb := PathOf(a), PathOf(b);
    assert pa[1..] == Segments(a) && pb[1..] == Segments(b);
    if Segments(a) <= Segments(b) {
      assert pb == "/" + Segments(a) + Segments(b)[|Segments(a)|..];
    }
  }
}
