/** The growing byte buffer of the HTTP/2 bridge (append_bytes). */
module Buffer {
  import opened Bytes
  import opened ChunkSize

  class GrowBuffer {
    var data: array<byte>
    var len: nat

    ghost predicate Valid()
      reads this
    {
      len <= data.Length <= MAX_RESPONSE
    }

    ghost function Contents(): seq<byte>
      requires Valid()
      reads this, data
    {
      data[..len]
    }

    constructor ()
      ensures Valid() && fresh(data) && Contents() == []
    {
      data, len := new byte[0], 0;
    }

    /** Doubles the capacity from 8192 until `need` fits, without passing the limit. */
    method Reserve(need: nat)
      requires Valid() && need <= MAX_RESPONSE
      modifies this
      ensures Valid() && need <= data.Length && (data == old(data) || fresh(data))
      ensures len == old(len) && Contents() == old(Contents())
    {
      if need > data.Length {
        var next := if data.Length == 0 then 8192 else data.Length;
        while next < need
          invariant 0 < next <= MAX_RESPONSE && data.Length <= next
          decreases need - next
        {
          if next > MAX_RESPONSE / 2 {
            next := MAX_RESPONSE;
            break;
          }
          next := next * 2;
        }
        var bigger := new byte[next];
        forall i | 0 <= i < len {
          bigger[i] := data[i];
        }
        data := bigger;
      }
    }

    /** memcpy to the end; the caller has checked the limit. */
    method Push(src: seq<byte>)
      requires Valid() && len + |src| <= MAX_RESPONSE
      modifies this, data
      ensures Valid() && (data == old(data) || fresh(data))
      ensures Contents() == old(Contents()) + src
    {
      Reserve(len + |src|);
      forall i | 0 <= i < |src| {
        data[len + i] := src[i];
      }
      len := len + |src|;
    }

    /** append_bytes: refused, with nothing changed, exactly when the limit would be passed. */
    method Append(src: seq<byte>) returns (ok: bool)
      requires Valid()
      modifies this, data
      ensures Valid() && (data == old(data) || fresh(data))
      ensures ok <==> |old(Contents())| + |src| <= MAX_RESPONSE
      ensures Contents() == if ok then old(Contents()) + src else old(Contents())
    {
      if |src| > MAX_RESPONSE || len > MAX_RESPONSE - |src| {
        return false;
      }
      Push(src);
      return true;
    }
  }
}
