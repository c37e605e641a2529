// The blocked bitmap that holds the ids of an archived month
// (deploy/archive_tool_calls.py, class `_Ids`).

module BlockedBitmap {

  const BLOCK_SIZE: int := 65536
  const BLOCK_BYTES: int := 8192

  predicate HasBit(octet: bv8, k: nat)
    requires k < 8
  {
    octet & (1 << k) != 0
  }

  // Setting one bit of an octet changes that bit only.
  lemma SetBitChangesOneBit(octet: bv8, k: nat, j: nat)
    requires k < 8 && j < 8
    ensures HasBit(octet | (1 << k), j) <==> j == k || HasBit(octet, j)
  {
    assert k == 0 || k == 1 || k == 2 || k == 3 || k == 4 || k == 5 || k == 6 || k == 7;
    assert j == 0 || j == 1 || j == 2 || j == 3 || j == 4 || j == 5 || j == 6 || j == 7;
  }

  // An id is determined by its block, its octet in the block and its bit in the octet.
  lemma PositionIsInjective(n: int, p: int)
    requires n / BLOCK_SIZE == p / BLOCK_SIZE
    requires (n % BLOCK_SIZE) / 8 == (p % BLOCK_SIZE) / 8
    requires n % 8 == p % 8
    ensures n == p
  {
    assert (n % BLOCK_SIZE) % 8 == n % 8;
    assert (p % BLOCK_SIZE) % 8 == p % 8;
  }

  // Whether `n` is marked, given the content of the blocks.
  ghost predicate Marked(view: map<int, seq<bv8>>, n: int) {
    n / BLOCK_SIZE in view && |view[n / BLOCK_SIZE]| == BLOCK_BYTES && HasBit(view[n / BLOCK_SIZE][(n % BLOCK_SIZE) / 8], n % 8)
  }

  // The content once the bit of `n` is set.
  ghost function Mark(view: map<int, seq<bv8>>, n: int): map<int, seq<bv8>>
    requires n / BLOCK_SIZE in view && |view[n / BLOCK_SIZE]| == BLOCK_BYTES
  {
    var block, octet := view[n / BLOCK_SIZE], (n % BLOCK_SIZE) / 8;
    view[n / BLOCK_SIZE := block[octet := block[octet] | (1 << (n % 8))]]
  }

  // Setting the bit of `n` marks `n` and nothing else.
  lemma MarkingOne(view: map<int, seq<bv8>>, n: int, p: int)
    requires n / BLOCK_SIZE in view && |view[n / BLOCK_SIZE]| == BLOCK_BYTES
    ensures Marked(Mark(view, n), p) <==> p == n || Marked(view, p)
  {
    if p / BLOCK_SIZE == n / BLOCK_SIZE && (p % BLOCK_SIZE) / 8 == (n % BLOCK_SIZE) / 8 {
      SetBitChangesOneBit(view[n / BLOCK_SIZE][(n % BLOCK_SIZE) / 8], n % 8, p % 8);
      if p % 8 == n % 8 {
        PositionIsInjective(n, p);
      }
    }
  }

  ghost predicate Represents(view: map<int, seq<bv8>>, contents: set<int>) {
    forall n: int :: n in contents <==> Marked(view, n)
  }

  lemma MarkRepresents(view: map<int, seq<bv8>>, contents: set<int>, n: int)
    requires n / BLOCK_SIZE in view && |view[n / BLOCK_SIZE]| == BLOCK_BYTES
    requires Represents(view, contents)
    ensures Represents(Mark(view, n), contents + {n})
  {
    forall p: int
      ensures p in contents + {n} <==> Marked(Mark(view, n), p)
    {
      MarkingOne(view, n, p);
    }
  }

  /** A set of ids, as one bytearray of 8192 octets per block of 65536 ids. `Contents` is
      the set it stands for; `Valid` ties it to the bits and to the counter. */
  class Ids {
    var blocks: map<int, array<bv8>>
    var distinct: nat
    ghost var Contents: set<int>

    ghost predicate Shaped()
      reads this`blocks, blocks.Values
    {
      && (forall b <- blocks :: blocks[b].Length == BLOCK_BYTES)
      && (forall b, c | b in blocks && c in blocks && b != c :: blocks[b] != blocks[c])
    }

    ghost function View(): map<int, seq<bv8>>
      requires Shaped()
      reads this`blocks, blocks.Values
    {
      map b | b in blocks :: blocks[b][..]
    }

    ghost predicate Valid()
      reads this, blocks.Values
    {
      && Shaped()
      && Represents(View(), Contents)
      && distinct == |Contents|
    }

    constructor ()
      ensures Valid() && Contents == {} && fresh(blocks.Values)
    {
      blocks := map[];
      distinct := 0;
      Contents := {};
    }

    // The block of `b`, allocated zeroed the first time (`setdefault`).
    method EnsureBlock(b: int)
      requires Valid()
      modifies this`blocks
      ensures Valid() && Contents == old(Contents)
      ensures b in blocks
      ensures forall a <- blocks.Values :: a in old(blocks.Values) || fresh(a)
    {
      if b !in blocks {
        ghost var before := View();
        var block := new bv8[BLOCK_BYTES](_ => 0);
        assert forall c <- blocks :: blocks[c] in blocks.Values && blocks[c] != block;
        blocks := blocks[b := block];
        assert View() == before[b := block[..]];
        forall p: int
          ensures Marked(View(), p) <==> Marked(before, p)
        {
        }
      }
    }

    method Contains(n: int) returns (found: bool)
      requires Valid()
      ensures found <==> n in Contents
    {
      var b := n / BLOCK_SIZE;
      found := b in blocks && blocks[b][(n % BLOCK_SIZE) / 8] & (1 << (n % 8)) != 0;
      assert found <==> Marked(View(), n);
    }

    method WriteOctet(b: int, octet: nat, value: bv8)
      requires Shaped() && b in blocks && octet < BLOCK_BYTES
      modifies blocks[b]
      ensures Shaped() && View() == old(View())[b := old(View())[b][octet := value]]
    {
      ghost var before := View();
      var block := blocks[b];
      block[octet] := value;
      assert forall c | c in blocks && c != b :: blocks[c] != block;
      assert forall c | c in blocks && c != b :: View()[c] == before[c];
      assert View()[b] == before[b][octet := value];
    }

    method SetBit(n: int)
      requires Shaped() && n / BLOCK_SIZE in blocks
      modifies blocks[n / BLOCK_SIZE]
      ensures Shaped() && View() == Mark(old(View()), n)
    {
      hide HasBit, Marked;
      var b, octet := n / BLOCK_SIZE, (n % BLOCK_SIZE) / 8;
      WriteOctet(b, octet, blocks[b][octet] | (1 << (n % 8)));
    }

    method Add(n: int)
      requires Valid()
      modifies this, blocks.Values
      ensures Valid()
      ensures Contents == old(Contents) + {n}
      ensures forall a <- blocks.Values :: a in old(blocks.Values) || fresh(a)
    {
      hide Represents, HasBit, Marked, Mark;
      EnsureBlock(n / BLOCK_SIZE);
      var found := Contains(n);
      if found {
        assert Contents + {n} == Contents;
      } else {
        assert blocks[n / BLOCK_SIZE] in blocks.Values;
        ghost var before := View();
        MarkRepresents(before, Contents, n);
        SetBit(n);
        distinct := distinct + 1;
        Contents := Contents + {n};
      }
    }
  }
}
