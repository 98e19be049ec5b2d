/**
  `tar_init` (src/tar.c) against a specification of the archive format: it recovers the
  entries an archive was made from.
 */
module TarWalk {
  import opened Words
  import opened Tar

  // ---------- headers as the code reads them ----------

  // The C string at address `a`.
  function CString(mem: seq<byte>, a: nat): (r: seq<byte>)
    ensures 0 !in r
    decreases |mem| - a
  {
    if a >= |mem| || mem[a] == 0 then [] else [mem[a]] + CString(mem, a + 1)
  }

  function FileSize(mem: seq<byte>, p: nat): word {
    OctalFrom(seq<byte>(11, i requires 0 <= i < 11 => Peek(mem, p + 124 + i)), 0, 11, 0)
  }

  function NameStart(mem: seq<byte>, p: nat): nat {
    if Peek(mem, p) == DOT && Peek(mem, p + 1) == SLASH then p + 2 else p
  }

  // The name without a leading "./".
  function NodeName(mem: seq<byte>, p: nat): seq<byte> {
    CString(mem, NameStart(mem, p))
  }

  lemma {:induction false} StringFitsIff(mem: seq<byte>, a: nat, n: nat)
    ensures |CString(mem, a)| < n <==> exists j: nat :: a <= j < a + n && Peek(mem, j) == 0
    decreases n
  {
    if n > 0 && Peek(mem, a) != 0 {
      StringFitsIff(mem, a + 1, n - 1);
    }
  }

  // The name and its NUL fit into the 128 bytes of a node exactly when the copy meets a NUL
  // among the first 128 bytes; the header field has room for 100.
  lemma NameFitsIff(mem: seq<byte>, p: nat)
    ensures |NodeName(mem, p)| < 128 <==>
            exists j: nat :: NameStart(mem, p) <= j < NameStart(mem, p) + 128 && Peek(mem, j) == 0
  {
    StringFitsIff(mem, NameStart(mem, p), 128);
  }

  predicate EndsWithSlash(name: seq<byte>) {
    name != [] && name[|name| - 1] == SLASH
  }

  function HeaderNode(mem: seq<byte>, p: nat): Node
    requires p + 512 < WORD_SIZE
  {
    Node(NodeName(mem, p), FileSize(mem, p), p + 512,
         Peek(mem, p + 156) == DIRTYPE || EndsWithSlash(CString(mem, p)))
  }

  // Data takes whole blocks of 512 bytes.
  function Blocks512(size: nat): nat { (size + 511) / 512 * 512 }

  function NextHeader(mem: seq<byte>, p: nat): (r: nat)
    ensures r > p
  {
    p + 512 + Blocks512(FileSize(mem, p))
  }

  // The code's own 32-bit pointer arithmetic.
  function StepPointer(p: word, size: word): word {
    Add32(p, Add32(512, Add32(size, 511) / 512 * 512))
  }

  // The pointer reaches the next header exactly when the sum does not wrap.
  lemma PointerExactIff(p: word, size: word)
    ensures StepPointer(p, size) == p + 512 + Blocks512(size) <==> p + 512 + Blocks512(size) < WORD_SIZE
  {
  }

  // On these sizes, which eleven octal digits can express, the pointer stays where it is
  // and the loop of `tar_init` does not end.
  lemma PointerStallsIff(p: word, size: word)
    ensures StepPointer(p, size) == p <==> 0xFFFF_FC01 <= size <= 0xFFFF_FE00
  {
  }

  // The pointer does not wrap around while it walks the headers.
  predicate WalkEnds(mem: seq<byte>, p: nat, end: nat)
    decreases end - p
  {
    p < end && Peek(mem, p) != 0 ==>
      NextHeader(mem, p) < 0x1_0000_0000 && WalkEnds(mem, NextHeader(mem, p), end)
  }

  function Nodes(mem: seq<byte>, p: nat, end: nat): seq<Node>
    requires WalkEnds(mem, p, end)
    decreases end - p
  {
    if p < end && Peek(mem, p) != 0 then [HeaderNode(mem, p)] + Nodes(mem, NextHeader(mem, p), end) else []
  }

  function Take(s: seq<Node>, n: nat): seq<Node> {
    if |s| <= n then s else s[..n]
  }

  // ---------- tar_init ----------

  class RamDisk {
    const nodes: array<Node>
    var count: nat

    ghost predicate Valid()
      reads this
    {
      nodes.Length == MAX_TAR_FILES && count <= MAX_TAR_FILES
    }

    ghost function Table(): seq<Node>
      requires Valid()
      reads this, nodes
    {
      nodes[..count]
    }

    constructor ()
      ensures Valid() && Table() == [] && fresh(nodes)
    {
      nodes := new Node[MAX_TAR_FILES](_ => Node([], 0, 0, false));
      count := 0;
    }

    // The first 128 entries become the table; later ones are walked over.
    method Init(mem: seq<byte>, address: word, size: word)
      requires Valid() && WalkEnds(mem, address, Add32(address, size))
      modifies this`count, nodes
      ensures Valid() && Table() == Take(Nodes(mem, address, Add32(address, size)), 128)
    {
      hide HeaderNode, FileSize, Blocks512, StepPointer;
      var end := Add32(address, size);
      ghost var all := Nodes(mem, address, end);
      var p := address;
      count := 0;
      ghost var seen := 0;
      while p < end && Peek(mem, p) != 0
        invariant Valid() && WalkEnds(mem, p, end)
        invariant seen <= |all| && all[seen..] == Nodes(mem, p, end)
        invariant count == if seen < MAX_TAR_FILES then seen else MAX_TAR_FILES
        invariant nodes[..count] == all[..count]
        decreases end as int - p as int
      {
        assert all[seen..][0] == all[seen] && all[seen..][1..] == all[seen + 1..];
        if count < MAX_TAR_FILES {
          nodes[count] := HeaderNode(mem, p);
          count := count + 1;
          assert nodes[..count] == nodes[..count - 1] + [all[seen]];
        }
        PointerExactIff(p, FileSize(mem, p));
        p := StepPointer(p, FileSize(mem, p));
        seen := seen + 1;
      }
      assert seen == |all|;
    }
  }

  // ---------- the archive format ----------

  // What an archive member carries; the fields the kernel does not look at are arbitrary.
  datatype Entry = Entry(name: seq<byte>, data: seq<byte>, kind: byte, sizeEnd: byte,
                         owner: seq<byte>, times: seq<byte>, rest: seq<byte>)

  predicate ProperEntry(e: Entry) {
    && 0 < |e.name| < 100 && 0 !in e.name && |e.data| < WORD_SIZE
    && |e.owner| == 24 && |e.times| == 20 && |e.rest| == 355
  }

  function Zeros(n: nat): (r: seq<byte>)
    ensures |r| == n && forall i :: 0 <= i < n ==> r[i] == 0
  {
    seq<byte>(n, i => 0)
  }

  // name, mode/uid/gid, size in 11 octal digits, mtime/checksum, type, the other fields.
  function Header(e: Entry): (r: seq<byte>)
    requires ProperEntry(e)
    ensures |r| == 512
  {
    e.name + Zeros(100 - |e.name|) + e.owner + Octal(|e.data|, 11) + [e.sizeEnd] + e.times + [e.kind] + e.rest
  }

  function Member(e: Entry): (r: seq<byte>)
    requires ProperEntry(e)
    ensures |r| == 512 + Blocks512(|e.data|)
  {
    Header(e) + e.data + Zeros(Blocks512(|e.data|) - |e.data|)
  }

  function Archive(es: seq<Entry>): seq<byte>
    requires forall i :: 0 <= i < |es| ==> ProperEntry(es[i])
  {
    if es == [] then [] else Member(es[0]) + Archive(es[1..])
  }

  function Stripped(name: seq<byte>): seq<byte> {
    if |name| >= 2 && name[0] == DOT && name[1] == SLASH then name[2..] else name
  }

  // The node an entry whose header lies at `p` should become.
  function ExpectedNode(e: Entry, p: nat): Node
    requires ProperEntry(e) && p + 512 < WORD_SIZE
  {
    Node(Stripped(e.name), |e.data|, p + 512, e.kind == DIRTYPE || EndsWithSlash(e.name))
  }

  function ExpectedNodes(es: seq<Entry>, p: nat): seq<Node>
    requires forall i :: 0 <= i < |es| ==> ProperEntry(es[i])
    requires p + |Archive(es)| < WORD_SIZE
  {
    if es == [] then []
    else [ExpectedNode(es[0], p)] + ExpectedNodes(es[1..], p + |Member(es[0])|)
  }

  // Memory holds `s` at address `a`.
  predicate Holds(mem: seq<byte>, a: nat, s: seq<byte>) {
    a + |s| <= |mem| && mem[a..a + |s|] == s
  }

  lemma HoldsAt(mem: seq<byte>, a: nat, s: seq<byte>, i: nat)
    requires Holds(mem, a, s) && i < |s|
    ensures Peek(mem, a + i) == s[i]
  {
    assert mem[a..a + |s|][i] == mem[a + i];
  }

  lemma {:induction false} StringHeld(mem: seq<byte>, a: nat, name: seq<byte>)
    requires 0 !in name && Holds(mem, a, name) && Peek(mem, a + |name|) == 0
    ensures CString(mem, a) == name
    decreases |name|
  {
    if name != [] {
      HoldsAt(mem, a, name, 0);
      assert mem[a + 1..a + 1 + |name[1..]|] == name[1..];
      StringHeld(mem, a + 1, name[1..]);
    }
  }

  lemma PartHeld(mem: seq<byte>, a: nat, s: seq<byte>, i: nat, j: nat)
    requires Holds(mem, a, s) && i <= j <= |s|
    ensures Holds(mem, a + i, s[i..j])
  {
    forall k | 0 <= k < j - i
      ensures mem[a + i..a + j][k] == s[i..j][k]
    {
      HoldsAt(mem, a, s, i + k);
    }
    assert mem[a + i..a + j] == s[i..j];
  }

  // ---------- the walk inverts the encoder ----------

  lemma HeaderLayout(e: Entry)
    requires ProperEntry(e)
    ensures Header(e)[..|e.name|] == e.name
    ensures Header(e)[|e.name|] == 0
    ensures Header(e)[124..135] == Octal(|e.data|, 11)
    ensures Header(e)[156] == e.kind
  {
    var a := e.name + Zeros(100 - |e.name|);
    var b := a + e.owner;
    var c := b + Octal(|e.data|, 11);
    var d := c + [e.sizeEnd] + e.times;
    assert |a| == 100 && |b| == 124 && |c| == 135 && |d| == 156;
    assert Header(e) == d + [e.kind] + e.rest;
    assert Header(e)[124..135] == Octal(|e.data|, 11);
  }

  lemma Pow8Eleven()
    ensures Pow8(11) > WORD_SIZE
  {
    assert Pow8(4) == 4096;
    assert Pow8(8) == 0x100_0000;
  }

  lemma SizeRecovered(mem: seq<byte>, p: nat, e: Entry)
    requires ProperEntry(e) && Holds(mem, p, Header(e))
    ensures FileSize(mem, p) == |e.data|
  {
    hide Header, Octal, OctalFrom, Pow8;
    HeaderLayout(e);
    Pow8Eleven();
    var field := seq<byte>(11, i requires 0 <= i < 11 => Peek(mem, p + 124 + i));
    forall i | 0 <= i < 11
      ensures field[i] == Octal(|e.data|, 11)[i]
    {
      HoldsAt(mem, p, Header(e), 124 + i);
      assert Header(e)[124..135][i] == Header(e)[124 + i];
    }
    assert field[..11] == Octal(|e.data|, 11);
    OctalRoundTrip(field, |e.data|, 11);
  }

  lemma NameRecovered(mem: seq<byte>, p: nat, e: Entry)
    requires ProperEntry(e) && Holds(mem, p, Header(e))
    ensures CString(mem, p) == e.name && NodeName(mem, p) == Stripped(e.name) && Peek(mem, p) == e.name[0] != 0
  {
    HeaderLayout(e);
    hide Header;
    var n := |e.name|;
    PartHeld(mem, p, Header(e), 0, n);
    HoldsAt(mem, p, Header(e), n);
    StringHeld(mem, p, e.name);
    HoldsAt(mem, p, e.name, 0);
    if n >= 2 {
      HoldsAt(mem, p, e.name, 1);
      if e.name[0] == DOT && e.name[1] == SLASH {
        PartHeld(mem, p, e.name, 2, n);
        StringHeld(mem, p + 2, e.name[2..]);
      }
    } else {
      assert Peek(mem, p + 1) == 0;
    }
  }

  lemma NodeRecovered(mem: seq<byte>, p: nat, e: Entry)
    requires ProperEntry(e) && Holds(mem, p, Member(e)) && p + 512 < WORD_SIZE
    ensures HeaderNode(mem, p) == ExpectedNode(e, p)
    ensures Peek(mem, p) != 0 && NextHeader(mem, p) == p + |Member(e)|
    ensures Holds(mem, p + 512, e.data)
  {
    var m := Member(e);
    assert m[..512] == Header(e) && m[512..512 + |e.data|] == e.data;
    PartHeld(mem, p, m, 0, 512);
    PartHeld(mem, p, m, 512, 512 + |e.data|);
    SizeRecovered(mem, p, e);
    NameRecovered(mem, p, e);
    HeaderLayout(e);
    HoldsAt(mem, p, Header(e), 156);
  }

  // What follows the last member: nothing, or a block whose first byte is NUL.
  predicate EndsAt(mem: seq<byte>, p: nat, end: nat) {
    p >= end || Peek(mem, p) == 0
  }

  // An archive is its first member followed by the archive of the others.
  lemma FirstMember(mem: seq<byte>, p: nat, es: seq<Entry>)
    requires es != [] && forall i :: 0 <= i < |es| ==> ProperEntry(es[i])
    requires Holds(mem, p, Archive(es))
    ensures |Archive(es)| == |Member(es[0])| + |Archive(es[1..])| && |Member(es[0])| >= 512 + |es[0].data|
    ensures Holds(mem, p, Member(es[0])) && Holds(mem, p + |Member(es[0])|, Archive(es[1..]))
  {
    MemberSize(es[0]);
    hide Member, Holds;
    var m, rest := Member(es[0]), Archive(es[1..]);
    assert Archive(es)[..|m|] == m && Archive(es)[|m|..] == rest;
    PartHeld(mem, p, Archive(es), 0, |m|);
    PartHeld(mem, p, Archive(es), |m|, |Archive(es)|);
  }

  lemma WalkStep(mem: seq<byte>, p: nat, end: nat)
    requires p < end && Peek(mem, p) != 0 && NextHeader(mem, p) < WORD_SIZE && WalkEnds(mem, NextHeader(mem, p), end)
    ensures WalkEnds(mem, p, end) && p + 512 < WORD_SIZE
    ensures Nodes(mem, p, end) == [HeaderNode(mem, p)] + Nodes(mem, NextHeader(mem, p), end)
  {
  }

  // For every list of entries, walking the archive made from it ends and finds, in order,
  // exactly the node of each entry.
  lemma {:induction false} WalkInvertsArchive(mem: seq<byte>, p: nat, end: nat, es: seq<Entry>)
    requires forall i :: 0 <= i < |es| ==> ProperEntry(es[i])
    requires Holds(mem, p, Archive(es)) && p + |Archive(es)| <= end && p + |Archive(es)| < WORD_SIZE
    requires EndsAt(mem, p + |Archive(es)|, end)
    ensures WalkEnds(mem, p, end) && Nodes(mem, p, end) == ExpectedNodes(es, p)
    decreases |es|
  {
    hide ProperEntry, Member, Archive, Holds, Peek, HeaderNode, ExpectedNode, NextHeader, WalkEnds, Nodes, ExpectedNodes, EndsAt;
    if es == [] {
      WalkDone(mem, p, end);
    } else {
      FirstMember(mem, p, es);
      NodeRecovered(mem, p, es[0]);
      var q := p + |Member(es[0])|;
      assert q + |Archive(es[1..])| == p + |Archive(es)|;
      WalkInvertsArchive(mem, q, end, es[1..]);
      WalkStep(mem, p, end);
      ExpectedStep(es, p);
    }
  }

  lemma WalkDone(mem: seq<byte>, p: nat, end: nat)
    requires EndsAt(mem, p + |Archive([])|, end) && p + |Archive([])| < WORD_SIZE
    ensures WalkEnds(mem, p, end) && Nodes(mem, p, end) == ExpectedNodes([], p)
  {
  }

  lemma ExpectedStep(es: seq<Entry>, p: nat)
    requires es != [] && forall i :: 0 <= i < |es| ==> ProperEntry(es[i])
    requires p + |Archive(es)| < WORD_SIZE && p + 512 < WORD_SIZE
    requires p + |Member(es[0])| + |Archive(es[1..])| < WORD_SIZE
    ensures ExpectedNodes(es, p) == [ExpectedNode(es[0], p)] + ExpectedNodes(es[1..], p + |Member(es[0])|)
  {
  }

  lemma MemberSize(e: Entry)
    requires ProperEntry(e)
    ensures |Member(e)| >= 512 + |e.data| && |Member(e)| >= 512
  {
  }

  // ---------- where the data lies ----------

  // Each node's data is its entry's data; it lies inside the archive and after the data
  // of every earlier node, so no two overlap.
  lemma {:induction false} DataInPlace(mem: seq<byte>, p: nat, es: seq<Entry>, i: nat)
    requires forall k :: 0 <= k < |es| ==> ProperEntry(es[k])
    requires Holds(mem, p, Archive(es)) && p + |Archive(es)| < WORD_SIZE && i < |es|
    ensures |ExpectedNodes(es, p)| == |es|
    ensures
      var n := ExpectedNodes(es, p)[i];
      && n.length == |es[i].data| && p + 512 <= n.impl && n.impl + n.length <= p + |Archive(es)|
      && Holds(mem, n.impl, es[i].data)
      && forall j :: 0 <= j < i ==> ExpectedNodes(es, p)[j].impl + ExpectedNodes(es, p)[j].length + 512 <= n.impl
    decreases |es|
  {
    hide Member, Archive, Holds;
    FirstMember(mem, p, es);
    ExpectedSize(es, p);
    if i == 0 {
      NodeRecovered(mem, p, es[0]);
    } else {
      var q := p + |Member(es[0])|;
      DataInPlace(mem, q, es[1..], i - 1);
      assert ExpectedNodes(es, p)[1..] == ExpectedNodes(es[1..], q);
      assert forall j :: 0 < j <= i ==> ExpectedNodes(es, p)[j] == ExpectedNodes(es[1..], q)[j - 1];
    }
  }

  lemma {:induction false} ExpectedSize(es: seq<Entry>, p: nat)
    requires forall k :: 0 <= k < |es| ==> ProperEntry(es[k])
    requires p + |Archive(es)| < WORD_SIZE
    ensures |ExpectedNodes(es, p)| == |es|
    decreases |es|
  {
    hide Member, ExpectedNode;
    if es != [] {
      ExpectedSize(es[1..], p + |Member(es[0])|);
    }
  }

  lemma {:induction false} ExpectedAt(es: seq<Entry>, p: nat, i: nat)
    requires forall k :: 0 <= k < |es| ==> ProperEntry(es[k])
    requires p + |Archive(es)| < WORD_SIZE && i < |es|
    ensures |ExpectedNodes(es, p)| == |es| && ExpectedNodes(es, p)[i].name == Stripped(es[i].name)
    ensures ExpectedNodes(es, p)[i].isDir <==> es[i].kind == DIRTYPE || EndsWithSlash(es[i].name)
    decreases |es|
  {
    hide Member, Stripped;
    ExpectedSize(es, p);
    if i > 0 {
      ExpectedAt(es[1..], p + |Member(es[0])|, i - 1);
    }
  }

  // Reading a recovered file in consecutive pieces, of whatever sizes, yields the data the
  // archive was made from, up to the total asked for.
  lemma FileReadsBack(mem: seq<byte>, p: nat, es: seq<Entry>, i: nat, sizes: seq<word>)
    requires forall k :: 0 <= k < |es| ==> ProperEntry(es[k])
    requires Holds(mem, p, Archive(es)) && p + |Archive(es)| < WORD_SIZE && i < |es| && Sum(sizes) < WORD_SIZE
    ensures |ExpectedNodes(es, p)| == |es|
    ensures
      var n := ExpectedNodes(es, p)[i];
      && n.impl + n.length <= |mem|
      && Reads(mem, n, 0, sizes) == es[i].data[..if Sum(sizes) < |es[i].data| then Sum(sizes) else |es[i].data|]
  {
    hide Archive, ExpectedNodes, Reads;
    DataInPlace(mem, p, es, i);
    var n, d := ExpectedNodes(es, p)[i], es[i].data;
    ReadsConcatenate(mem, n, 0, sizes);
    var end := if Sum(sizes) < |d| then Sum(sizes) else |d|;
    PartHeld(mem, n.impl, d, 0, end);
  }
}
