/** The preview's bounded object store: byte accounting, and private copies in both directions. */
module ObjectStorage {
  import opened Options
  import opened Utf8

  datatype Object = Object(bytes: seq<Byte>, contentType: Option<string>)

  type Contents = map<string, Object>

  /** The bytes stored under all keys together. */
  ghost function TotalSize(c: Contents): nat {
    if c == map[] then 0 else
    var k :| k in c;
    |c[k].bytes| + TotalSize(c - {k})
  }

  function SizeAt(c: Contents, key: string): nat {
    if key in c then |c[key].bytes| else 0
  }

  /** Which key is counted first does not matter. */
  lemma {:induction false} TotalWithout(c: Contents, key: string)
    requires key in c
    ensures TotalSize(c) == |c[key].bytes| + TotalSize(c - {key})
  {
    var k :| k in c && TotalSize(c) == |c[k].bytes| + TotalSize(c - {k});
    if k != key {
      TotalWithout(c - {k}, key);
      TotalWithout(c - {key}, k);
      assert c - {k} - {key} == c - {key} - {k};
    }
  }

  lemma TotalAfterDelete(c: Contents, key: string)
    ensures TotalSize(c - {key}) == TotalSize(c) - SizeAt(c, key)
  {
    if key in c { TotalWithout(c, key); } else { assert c - {key} == c; }
  }

  lemma TotalAfterPut(c: Contents, key: string, o: Object)
    ensures TotalSize(c[key := o]) == TotalSize(c) - SizeAt(c, key) + |o.bytes|
  {
    TotalWithout(c[key := o], key);
    TotalAfterDelete(c, key);
    assert c[key := o] - {key} == c - {key};
  }

  datatype PutResult = Stored | CapacityExceeded

  datatype Range = Range(offset: int, length: int)

  datatype GetResult = Missing | InvalidRange | Body(bytes: array<Byte>, size: nat, contentType: Option<string>)

  function Min(a: int, b: int): int { if a <= b then a else b }

  /** The `length` bytes from `offset` on, or as many of them as there are. */
  predicate CutFrom(part: seq<Byte>, whole: seq<Byte>, offset: int, length: int) {
    && |part| == (if offset >= |whole| then 0 else if offset + length <= |whole| then length else |whole| - offset)
    && forall k :: 0 <= k < |part| ==> 0 <= offset + k < |whole| && part[k] == whole[offset + k]
  }

  datatype Held = Held(buffer: array<Byte>, contentType: Option<string>)

  ghost predicate Shows(h: Held, o: Object)
    reads h.buffer
  {
    h.buffer[..] == o.bytes && h.contentType == o.contentType
  }

  /** A private copy. */
  method CopyBytes(value: array<Byte>, from: nat, to: nat) returns (copy: array<Byte>)
    requires from <= to <= value.Length
    ensures fresh(copy) && copy[..] == value[from..to]
  {
    copy := new Byte[to - from](i requires 0 <= i < to - from reads value => value[from + i]);
    assert copy[..] == value[from..to];
  }

  class PreviewObjectStorage {
    const maxBytes: nat
    var objects: map<string, Held>
    var storedBytes: int
    ghost var contents: Contents
    ghost var buffers: set<array<Byte>>

    ghost predicate Valid()
      reads this, buffers
    {
      && objects.Keys == contents.Keys
      && (forall k :: k in objects ==> objects[k].buffer in buffers && Shows(objects[k], contents[k]))
      && storedBytes == TotalSize(contents) && storedBytes <= maxBytes
    }

    constructor (maxBytes: nat)
      ensures Valid() && contents == map[] && buffers == {} && this.maxBytes == maxBytes
    {
      this.maxBytes := maxBytes;
      objects, storedBytes, contents, buffers := map[], 0, map[], {};
    }

    /** The new object's buffer becomes the store's own. */
    method Replace(key: string, held: Held, nextSize: int)
      requires Valid() && nextSize == TotalSize(contents[key := Object(held.buffer[..], held.contentType)])
      requires nextSize <= maxBytes
      modifies this
      ensures Valid() && buffers == old(buffers) + {held.buffer}
      ensures contents == old(contents)[key := Object(held.buffer[..], held.contentType)]
    {
      contents := contents[key := Object(held.buffer[..], held.contentType)];
      objects := objects[key := held];
      buffers := buffers + {held.buffer};
      storedBytes := nextSize;
    }

    /** A put that does not fit changes nothing; one that does replaces the key's object by a copy. */
    method Put(key: string, value: array<Byte>, contentType: Option<string>) returns (r: PutResult)
      requires Valid()
      modifies this
      ensures Valid() && buffers >= old(buffers) && fresh(buffers - old(buffers))
      ensures r == if TotalSize(old(contents)) - SizeAt(old(contents), key) + value.Length <= maxBytes
                   then Stored else CapacityExceeded
      ensures contents == if r.Stored? then old(contents)[key := Object(value[..], contentType)] else old(contents)
    {
      var copy := CopyBytes(value, 0, value.Length);
      var replaced := if key in objects then objects[key].buffer.Length else 0;
      assert value[0..value.Length] == value[..] && replaced == SizeAt(contents, key);
      TotalAfterPut(contents, key, Object(value[..], contentType));
      var nextSize := storedBytes - replaced + copy.Length;
      if nextSize > maxBytes { return CapacityExceeded; }
      Replace(key, Held(copy, contentType), nextSize);
      return Stored;
    }

    method Delete(key: string)
      requires Valid()
      modifies this
      ensures Valid() && buffers == old(buffers) && contents == old(contents) - {key}
    {
      TotalAfterDelete(contents, key);
      storedBytes := storedBytes - if key in objects then objects[key].buffer.Length else 0;
      objects := objects - {key};
      contents := contents - {key};
    }

    /** The size and content type of an object. */
    method Head(key: string) returns (size: Option<nat>, contentType: Option<string>)
      requires Valid()
      ensures size == if key in contents then Some(|contents[key].bytes|) else None
      ensures key in contents ==> contentType == contents[key].contentType
    {
      if key !in objects { return None, None; }
      assert |objects[key].buffer[..]| == objects[key].buffer.Length;
      return Some(objects[key].buffer.Length), objects[key].contentType;
    }

    /** A missing object is reported before its range is looked at; the bytes are the caller's own. */
    method Get(key: string, range: Option<Range>) returns (r: GetResult)
      requires Valid()
      ensures r.Missing? <==> key !in contents
      ensures r.InvalidRange? <==> key in contents && range.Some? && (range.value.offset < 0 || range.value.length < 0)
      ensures r.Body? ==> fresh(r.bytes) && r.size == |contents[key].bytes|
      ensures r.Body? ==> r.contentType == contents[key].contentType
      ensures r.Body? && range.None? ==> r.bytes[..] == contents[key].bytes
      ensures r.Body? && range.Some? ==>
                CutFrom(r.bytes[..], contents[key].bytes, range.value.offset, range.value.length)
    {
      if key !in objects { return Missing; }
      var source := objects[key].buffer;
      if range.Some? && (range.value.offset < 0 || range.value.length < 0) { return InvalidRange; }
      var from := if range.Some? then Min(range.value.offset, source.Length) else 0;
      var to := if range.Some? then Min(range.value.offset + range.value.length, source.Length) else source.Length;
      var bytes := CopyBytes(source, from, to);
      assert source[from..to] == source[..][from..to];
      return Body(bytes, source.Length, objects[key].contentType);
    }
  }

  /** Whatever else is written to in the meantime, a store whose own parts are left alone holds what it held. */
  twostate lemma OthersWritesAreHarmless(storage: PreviewObjectStorage)
    requires old(storage.Valid()) && unchanged(storage) && forall b <- old(storage.buffers) :: unchanged(b)
    ensures storage.Valid() && storage.contents == old(storage.contents)
  {}

  /** Anything at all written over an array. */
  method Overwrite(a: array<Byte>, noise: int -> Byte)
    modifies a
    ensures forall k :: 0 <= k < a.Length ==> a[k] == noise(k)
  {
    for i := 0 to a.Length
      invariant forall k :: 0 <= k < i ==> a[k] == noise(k)
    {
      a[i] := noise(i);
    }
  }

  /**
   * A caller that writes anything over the buffer it put, and over any body it got, changes no later get:
   * whether or not the put fit or replaced an object, every key still has what it had after the put.
   */
  method ReusedBuffersAreHarmless(storage: PreviewObjectStorage, key: string, buffer: array<Byte>,
                                  contentType: Option<string>,
                                  read: string, range: Option<Range>, again: string, noise: int -> Byte)
    returns (put: PutResult, body: GetResult, later: GetResult)
    requires storage.Valid() && buffer !in storage.buffers
    modifies storage, buffer
    ensures storage.Valid()
    ensures put == if TotalSize(old(storage.contents)) - SizeAt(old(storage.contents), key) + buffer.Length
                        <= storage.maxBytes
                   then Stored else CapacityExceeded
    ensures storage.contents == if put.Stored? then old(storage.contents)[key := Object(old(buffer[..]), contentType)]
                               else old(storage.contents)
    ensures later.Missing? <==> again !in storage.contents
    ensures later.Body? <==> again in storage.contents
    ensures later.Body? ==> later.bytes[..] == storage.contents[again].bytes
  {
    put := storage.Put(key, buffer, contentType);
    Overwrite(buffer, noise);
    body := storage.Get(read, range);
    if body.Body? { Overwrite(body.bytes, noise); }
    later := storage.Get(again, None);
  }
}
