/** `makeCommand`, and the generator of nested arrays used to exercise the parser. */
module RedisCommands {
  import opened Bytes
  import opened RespProtocol
  import opened RespMachine
  import opened RespRefinement

  /** A command is the array of its items as bulk strings. */
  function Command(items: seq<seq<Byte>>): Reply {
    Multi(seq(|items|, i requires 0 <= i < |items| => Bulk(items[i])))
  }

  /** The sizes are those of objects in memory, below 2^63. */
  predicate Sized(items: seq<seq<Byte>>) {
    |items| < LONG_LIMIT && forall k :: 0 <= k < |items| ==> |items[k]| < LONG_LIMIT
  }

  lemma {:induction false} EncodeAllSnoc(rs: seq<Reply>, r: Reply)
    ensures EncodeAll(rs + [r]) == EncodeAll(rs) + Encode(r)
  {
    if rs == [] {
      assert EncodeAll([r]) == Encode(r) + EncodeAll([]);
    } else {
      assert (rs + [r])[1..] == rs[1..] + [r];
      EncodeAllSnoc(rs[1..], r);
    }
  }

  /** The items of a command: "$", the length, the bytes. */
  function ItemBytes(items: seq<seq<Byte>>): seq<Byte> {
    if items == [] then []
    else
      var last := items[|items| - 1];
      ItemBytes(items[..|items| - 1]) + [36] + IntText(|last|) + [13, 10] + last + [13, 10]
  }

  lemma ItemAppended(head: seq<Byte>, d: seq<Byte>)
    ensures head + Encode(Bulk(d)) == head + [36] + IntText(|d|) + [13, 10] + d + [13, 10]
  {
    var t := IntText(|d|);
    hide IntText;
    assert Encode(Bulk(d)) == [36] + t + [13, 10] + (d + [13, 10]);
    assert head + ([36] + t + [13, 10] + (d + [13, 10])) == head + [36] + t + [13, 10] + d + [13, 10];
  }

  lemma {:induction false} EncodedItems(items: seq<seq<Byte>>)
    ensures EncodeAll(Command(items).items) == ItemBytes(items)
  {
    if items != [] {
      hide IntText, Encode;
      var init, last := items[..|items| - 1], items[|items| - 1];
      EncodedItems(init);
      assert Command(items).items == Command(init).items + [Bulk(last)];
      EncodeAllSnoc(Command(init).items, Bulk(last));
      ItemAppended(ItemBytes(init), last);
    }
  }

  /** A command is "*", the number of its items, and the items. */
  lemma CommandBytes(items: seq<seq<Byte>>)
    ensures Encode(Command(items)) == [42] + IntText(|items|) + [13, 10] + ItemBytes(items)
  {
    hide IntText;
    EncodedItems(items);
  }

  /** `makeCommand` */
  method MakeCommand(items: seq<seq<Byte>>) returns (result: seq<Byte>)
    ensures result == Encode(Command(items))
    ensures result == [42] + IntText(|items|) + [13, 10] + ItemBytes(items)
  {
    hide IntText;
    CommandBytes(items);
    ghost var all := Command(items).items;
    result := [STAR];
    result := result + IntText(|items|);
    result := result + CRLF;
    ghost var head := result;
    var k := 0;
    while k < |items|
      invariant 0 <= k <= |items|
      invariant result == head + EncodeAll(all[..k])
    {
      EncodeAllSnoc(all[..k], all[k]);
      assert all[..k + 1] == all[..k] + [all[k]];
      result := AppendItem(result, items[k]);
      k := k + 1;
    }
    assert all[..|items|] == all;
  }

  method AppendItem(buffer: seq<Byte>, item: seq<Byte>) returns (result: seq<Byte>)
    ensures result == buffer + Encode(Bulk(item))
  {
    result := buffer + [DOLLAR];
    result := result + IntText(|item|);
    result := result + CRLF;
    result := result + item;
    result := result + CRLF;
  }

  lemma {:induction false} MeaningsAt(rs: seq<Reply>, k: nat)
    requires k < |rs|
    ensures Meanings(rs)[k] == Meaning(rs[k])
  {
    if k > 0 {
      MeaningsAt(rs[1..], k - 1);
    }
  }

  /**
   * The parser inverts `makeCommand`: whatever bytes the items hold (CR and LF
   * included) and whatever follows, they come back as they went in.
   */
  lemma ParserInvertsMakeCommand(items: seq<seq<Byte>>, after: seq<Byte>)
    requires Sized(items)
    ensures var r := Run(IDLE, Encode(Command(items)) + after, 0);
      && r.Completed? && r.next == |Encode(Command(items))|
      && r.value.Array? && |r.value.elems| == |items|
      && forall k :: 0 <= k < |items| ==> r.value.elems[k] == ByteArray(items[k], false)
  {
    var c := Command(items);
    RoundTrip(c, [], after);
    assert [] + Encode(c) + after == Encode(c) + after;
    forall k | 0 <= k < |items| ensures Meanings(c.items)[k] == ByteArray(items[k], false) {
      MeaningsAt(c.items, k);
    }
  }

  /** Element `i` of an array nested `level` deeper. */
  function NestedItem(size: nat, level: nat, i: nat): Reply
    decreases level, 0
  {
    if level > 0 then Nested(size, level - 1) else Integer(i)
  }

  /** `size` elements on each of `level + 1` levels, integers innermost. */
  function Nested(size: nat, level: nat): Reply
    decreases level, 1
  {
    Multi(seq(size, i requires 0 <= i < size => NestedItem(size, level, i)))
  }

  lemma {:induction false} NestedWellFormed(size: nat, level: nat)
    requires size < LONG_LIMIT
    ensures WellFormed(Nested(size, level))
    decreases level
  {
    if level > 0 {
      NestedWellFormed(size, level - 1);
    }
  }

  /** `generateArray` of the parser benchmark. */
  method GenerateArray(size: nat, level: nat) returns (result: seq<Byte>)
    ensures result == Encode(Nested(size, level))
    decreases level, 1
  {
    hide IntText;
    ghost var all := Nested(size, level).items;
    result := [STAR] + IntText(size) + CRLF;
    ghost var head := result;
    var i := 0;
    while i < size
      invariant 0 <= i <= size
      invariant result == head + EncodeAll(all[..i])
    {
      EncodeAllSnoc(all[..i], all[i]);
      assert all[..i + 1] == all[..i] + [all[i]];
      var item := GenerateItem(size, level, i);
      result := result + item;
      i := i + 1;
    }
    assert all[..size] == all;
  }

  method GenerateItem(size: nat, level: nat, i: nat) returns (result: seq<Byte>)
    ensures result == Encode(NestedItem(size, level, i))
    decreases level, 0
  {
    if level > 0 {
      result := GenerateArray(size, level - 1);
    } else {
      result := [COLON];
      result := result + IntText(i);
      result := result + CRLF;
    }
  }

  /** The benchmark's requirement: the parser completes every generated array, in
      one chunk, consuming all of it. */
  lemma GeneratedArrayCompletes(size: nat, level: nat)
    requires size < LONG_LIMIT
    ensures var s := Encode(Nested(size, level));
      Run(IDLE, s, 0) == Completed(|s|, Meaning(Nested(size, level)))
  {
    NestedWellFormed(size, level);
    RoundTrip(Nested(size, level), [], []);
    assert [] + Encode(Nested(size, level)) + [] == Encode(Nested(size, level));
  }
}
