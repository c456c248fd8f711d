/** The growable byte buffer of src/http-util.c (`struct httpio_bstream`):
    a heap array whose capacity always exceeds the number of bytes in use,
    so that one more byte (a terminating NUL) always fits. */
module ByteStreams {
  import opened CText

  /** BYTE_STREAM_DEFAULT_SIZE */
  const DefaultSize: nat := 0x4000

  class ByteStream {
    var data: array<byte>
    var length: nat

    /** length < capacity, where the capacity is the size of the allocation. */
    ghost predicate Valid()
      reads this
    {
      length < data.Length
    }

    function Contents(): seq<byte>
      reads this, data
      requires Valid()
    {
      data[..length]
    }

    /** httpio_byte_stream_start: an empty stream with the default capacity. */
    constructor Start()
      ensures Valid() && fresh(data)
      ensures length == 0 && data.Length == DefaultSize
      ensures Contents() == []
    {
      data := new byte[DefaultSize];
      length := 0;
    }

    /** httpio_byte_stream_append: when the bytes do not fit below the
        capacity, the buffer is reallocated to DefaultSize + length + size
        (reallocOk says whether realloc succeeded; when it fails the stream
        is left as it was); then the bytes are copied after the old ones. */
    method Append(bytes: seq<byte>, reallocOk: bool)
      requires Valid()
      modifies this, data
      ensures Valid()
      ensures data == old(data) || fresh(data)
      ensures var grows := old(length) + |bytes| >= old(data.Length);
              if grows && !reallocOk then
                data == old(data) && length == old(length) && Contents() == old(Contents())
              else
                && Contents() == old(Contents()) + bytes
                && length == old(length) + |bytes|
                && data.Length == (if grows then DefaultSize + old(length) + |bytes| else old(data.Length))
    {
      if length + |bytes| >= data.Length {
        if !reallocOk {
          return;
        }
        var resized := new byte[DefaultSize + length + |bytes|];
        forall i | 0 <= i < data.Length {
          resized[i] := data[i];
        }
        data := resized;
      }
      forall i | 0 <= i < |bytes| {
        data[length + i] := bytes[i];
      }
      length := length + |bytes|;
    }

    /** httpio_byte_stream_ends_with: false when the stream is not strictly
        longer than the tail, otherwise whether its last bytes are the tail. */
    function EndsWith(tail: seq<byte>): (r: bool)
      reads this, data
      requires Valid()
      ensures r <==> exists head :: |head| > 0 && Contents() == head + tail
    {
      var far := length;
      if far <= |tail| then
        assert forall head :: Contents() == head + tail ==> |head| == far - |tail|;
        false
      else
        var r := data[far - |tail|..far] == tail;
        assert r ==> Contents() == Contents()[..far - |tail|] + tail;
        r
    }
  }
}
