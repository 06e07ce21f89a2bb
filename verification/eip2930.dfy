/** The EIP-2930 access list carried by the record: a list of
    `[address, [storageKey, ...]]` pairs, with its RLP codec.

    `AccessList` is a transparent wrapper around a list of items, so it is
    encoded as an RLP list of items; each item is a two-field RLP struct. */
module Eip2930 {
  import opened Wrappers
  import opened Primitives
  import opened Rlp

  datatype AccessListItem = AccessListItem(address: Address, storageKeys: seq<B256>)

  type AccessList = seq<AccessListItem>

  /** Storage keys. Each key is a 32-byte string item of 33 bytes. */

  /** Concatenated encodings of the keys: the payload of the key list. */
  function EncodeKeys(keys: seq<B256>): (out: seq<Byte>)
    ensures |out| == 33 * |keys|
  {
    if |keys| == 0 then [] else EncodeString(keys[0]) + EncodeKeys(keys[1..])
  }

  /** The loop of `Vec::<B256>::decode`: decode keys until the payload is used up. */
  function DecodeKeys(p: seq<Byte>): (r: Result<seq<B256>, Error>)
    ensures r.Ok? ==> EncodeKeys(r.value) == p
    decreases |p|
  {
    if |p| == 0 then Ok([])
    else
      var d :- DecodeFixed(p, 32);
      var key: B256 := d.0;
      var tail :- DecodeKeys(d.1);
      assert ([key] + tail)[1..] == tail;
      Ok([key] + tail)
  }

  function EncodeKeyList(keys: seq<B256>): (out: seq<Byte>)
    requires Framable(33 * |keys|)
    ensures |out| == ListLength(33 * |keys|)
  {
    EncodeList(EncodeKeys(keys))
  }

  /** `Vec::<B256>::decode`. */
  function DecodeKeyList(s: seq<Byte>): (r: Result<(seq<B256>, seq<Byte>), Error>)
    ensures r.Ok? ==> Framable(33 * |r.value.0|) && s == EncodeKeyList(r.value.0) + r.value.1
  {
    var d :- DecodeBytes(s, true);
    var keys :- DecodeKeys(d.0);
    Ok((keys, d.1))
  }

  /** Items. */

  /** Payload of an item: the 21-byte address item and the key list. */
  function ItemPayloadLength(item: AccessListItem): nat {
    21 + ListLength(33 * |item.storageKeys|)
  }

  /** `AccessListItem::length`. */
  function ItemLength(item: AccessListItem): nat {
    ListLength(ItemPayloadLength(item))
  }

  /** `AccessListItem::encode` (derived): a list of the address and the key list. */
  function EncodeAccessListItem(item: AccessListItem): (out: seq<Byte>)
    requires Framable(ItemPayloadLength(item))
    ensures |out| == ItemLength(item)
  {
    EncodeList(EncodeItemFields(item))
  }

  /** The fields of an item, in declaration order. */
  function EncodeItemFields(item: AccessListItem): (out: seq<Byte>)
    requires Framable(33 * |item.storageKeys|)
    ensures |out| == ItemPayloadLength(item)
  {
    EncodeString(item.address) + EncodeKeyList(item.storageKeys)
  }

  /** The field decoders of `AccessListItem::decode`, reading from the rest
      of the input without regard to the declared payload. */
  function DecodeItemFields(body: seq<Byte>): (r: Result<(AccessListItem, seq<Byte>), Error>)
    ensures r.Ok? ==> Framable(33 * |r.value.0.storageKeys|)
    ensures r.Ok? ==> body == EncodeItemFields(r.value.0) + r.value.1
  {
    var a :- DecodeFixed(body, 20);
    var k :- DecodeKeyList(a.1);
    Ok((AccessListItem(a.0, k.0), k.1))
  }

  /** `AccessListItem::decode` (derived): a list header, then the two fields
      read from the rest of the input, then a check that they used exactly
      the declared payload. */
  function DecodeAccessListItem(s: seq<Byte>): (r: Result<(AccessListItem, seq<Byte>), Error>)
    ensures r.Ok? ==> Framable(ItemPayloadLength(r.value.0))
    ensures r.Ok? ==> s == EncodeAccessListItem(r.value.0) + r.value.1
  {
    var dh :- DecodeHeader(s);
    var h := dh.0;
    if !h.list then Err(UnexpectedString)
    else
      var body := s[dh.1..];
      var f :- DecodeItemFields(body);
      var consumed := |body| - |f.1|;
      if consumed != h.payloadLength then Err(ListLengthMismatch(h.payloadLength, consumed))
      else
        ListFraming(s, h, dh.1, EncodeItemFields(f.0), f.1);
        Ok(f)
  }

  /** Lists of items. */

  /** Sum of the item lengths: the payload of the access list. */
  function ItemsPayloadLength(items: seq<AccessListItem>): nat {
    if |items| == 0 then 0 else ItemLength(items[0]) + ItemsPayloadLength(items[1..])
  }

  /** `AccessList::length`. */
  function AccessListLength(al: AccessList): nat {
    ListLength(ItemsPayloadLength(al))
  }

  /** Concatenated item encodings. */
  function EncodeItems(items: seq<AccessListItem>): (out: seq<Byte>)
    requires Framable(ItemsPayloadLength(items))
    ensures |out| == ItemsPayloadLength(items)
  {
    if |items| == 0 then []
    else EncodeAccessListItem(items[0]) + EncodeItems(items[1..])
  }

  /** The loop of `Vec::<AccessListItem>::decode`. */
  function DecodeItems(p: seq<Byte>): (r: Result<seq<AccessListItem>, Error>)
    ensures r.Ok? ==> ItemsPayloadLength(r.value) == |p|
    ensures r.Ok? && Framable(|p|) ==> EncodeItems(r.value) == p
    decreases |p|
  {
    if |p| == 0 then Ok([])
    else
      var d :- DecodeAccessListItem(p);
      var tail :- DecodeItems(d.1);
      assert ([d.0] + tail)[1..] == tail;
      Ok([d.0] + tail)
  }

  /** `AccessList::encode`. */
  function EncodeAccessList(al: AccessList): (out: seq<Byte>)
    requires Framable(ItemsPayloadLength(al))
    ensures |out| == AccessListLength(al)
  {
    EncodeList(EncodeItems(al))
  }

  /** `AccessList::decode`: a list item whose payload is used up by items. */
  function DecodeAccessList(s: seq<Byte>): (r: Result<(AccessList, seq<Byte>), Error>)
    ensures r.Ok? ==> Framable(ItemsPayloadLength(r.value.0))
    ensures r.Ok? ==> s == EncodeAccessList(r.value.0) + r.value.1
  {
    var d :- DecodeBytes(s, true);
    var items :- DecodeItems(d.0);
    Ok((items, d.1))
  }

  /** Round trips. */

  lemma {:induction false} KeysRoundTrip(keys: seq<B256>)
    ensures DecodeKeys(EncodeKeys(keys)) == Ok(keys)
  {
    if |keys| > 0 {
      var tail := EncodeKeys(keys[1..]);
      FixedRoundTrip(keys[0], tail);
      KeysRoundTrip(keys[1..]);
      assert [keys[0]] + keys[1..] == keys;
    }
  }

  lemma KeyListRoundTrip(keys: seq<B256>, rest: seq<Byte>)
    requires Framable(33 * |keys|)
    ensures DecodeKeyList(EncodeKeyList(keys) + rest) == Ok((keys, rest))
  {
    DecodeBytesRoundTrip(EncodeKeys(keys), true, rest);
    KeysRoundTrip(keys);
  }

  lemma ItemFieldsRoundTrip(item: AccessListItem, rest: seq<Byte>)
    requires Framable(33 * |item.storageKeys|)
    ensures DecodeItemFields(EncodeItemFields(item) + rest) == Ok((item, rest))
  {
    var keyList := EncodeKeyList(item.storageKeys);
    assert EncodeItemFields(item) + rest == EncodeString(item.address) + (keyList + rest);
    FixedRoundTrip(item.address, keyList + rest);
    KeyListRoundTrip(item.storageKeys, rest);
  }

  lemma AccessListItemRoundTrip(item: AccessListItem, rest: seq<Byte>)
    requires Framable(ItemPayloadLength(item))
    ensures DecodeAccessListItem(EncodeAccessListItem(item) + rest) == Ok((item, rest))
  {
    var fields := EncodeItemFields(item);
    var h := Header(true, |fields|);
    var hl := |EncodeHeader(h)|;
    var s := EncodeHeader(h) + fields + rest;
    HeaderRoundTrip(h, fields + rest);
    assert s == EncodeHeader(h) + (fields + rest);
    assert DecodeHeader(s) == Ok((h, hl));
    assert s[hl..] == fields + rest;
    ItemFieldsRoundTrip(item, rest);
  }

  lemma {:induction false} ItemsRoundTrip(items: seq<AccessListItem>)
    requires Framable(ItemsPayloadLength(items))
    ensures DecodeItems(EncodeItems(items)) == Ok(items)
  {
    if |items| > 0 {
      var head := items[0];
      var rest := items[1..];
      var tail := EncodeItems(rest);
      assert EncodeItems(items) == EncodeAccessListItem(head) + tail;
      AccessListItemRoundTrip(head, tail);
      ItemsRoundTrip(rest);
      DecodeItemsStep(EncodeItems(items), head, tail, rest);
      assert [head] + rest == items;
    }
  }

  /** One turn of the item loop: an item, then whatever the rest decodes to. */
  lemma DecodeItemsStep(p: seq<Byte>, item: AccessListItem, tail: seq<Byte>, items: seq<AccessListItem>)
    requires |p| > 0
    requires DecodeAccessListItem(p) == Ok((item, tail))
    requires DecodeItems(tail) == Ok(items)
    ensures DecodeItems(p) == Ok([item] + items)
  {
  }

  lemma AccessListRoundTrip(al: AccessList, rest: seq<Byte>)
    requires Framable(ItemsPayloadLength(al))
    ensures DecodeAccessList(EncodeAccessList(al) + rest) == Ok((al, rest))
  {
    DecodeBytesRoundTrip(EncodeItems(al), true, rest);
    ItemsRoundTrip(al);
  }
}
