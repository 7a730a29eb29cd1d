// One editable line: a growing character array with a length, shifted in place.
module LineBuffer {
  import opened FlatText

  class Line {
    var data: array<char>
    var len: nat

    /** There is always room for the terminating NUL. */
    predicate Valid()
      reads this, data
    {
      len < data.Length && data[len] == '\0'
    }

    function Text(): string
      reads this, data
      requires Valid()
    {
      data[..len]
    }

    constructor ()
      ensures Valid() && fresh(data) && Text() == "" && data.Length == 128
    {
      data := new char[128](_ => '\0');
      len := 0;
    }

    // Doubles the capacity until it suffices; the text moves along.
    method Ensure(need: nat)
      requires Valid()
      modifies this`data
      ensures Valid() && data.Length >= need
      ensures forall k :: 0 <= k <= len ==> data[k] == old(data[k])
      ensures if need <= old(data.Length) then data == old(data) else fresh(data)
    {
      if data.Length >= need {
        return;
      }
      var cap := data.Length;
      while cap < need
        invariant cap >= data.Length > 0
        decreases need - cap
      {
        cap := cap * 2;
      }
      var bigger := new char[cap](_ => '\0');
      for i := 0 to len
        modifies bigger
        invariant forall k :: 0 <= k < i ==> bigger[k] == data[k]
        invariant bigger[len] == '\0'
      {
        bigger[i] := data[i];
      }
      data := bigger;
    }

    method Insert(at: int, c: char)
      requires Valid()
      modifies this, data
      ensures Valid() && (data == old(data) || fresh(data))
      ensures var pos := if at < 0 then 0 else if at > |old(Text())| then |old(Text())| else at;
              Text() == Splice(old(Text()), pos, 0, [c])
    {
      var pos := if at < 0 then 0 else at;
      if pos > len {
        pos := len;
      }
      Replace(pos, 0, [c]);
    }

    method Delete(pos: int)
      requires Valid()
      modifies this, data
      ensures Valid() && data == old(data)
      ensures Text() == if 0 <= pos < |old(Text())| then Splice(old(Text()), pos, 1, "") else old(Text())
    {
      if pos < 0 || pos >= len {
        return;
      }
      ghost var text := data[..len];
      ShiftLeft(pos, 1);
      SetLength(len - 1);
      Assemble(data[..len], text, pos, 1, "");
    }

    // Replaces oldLen characters at pos: the tail moves right, left or not at all.
    method Replace(pos: nat, oldLen: nat, ins: string)
      requires Valid() && pos + oldLen <= |Text()|
      modifies this, data
      ensures Valid() && (data == old(data) || fresh(data))
      ensures Text() == Splice(old(Text()), pos, oldLen, ins)
    {
      ghost var text := data[..len];
      Place(pos, oldLen, ins);
      SetLength(len + |ins| - oldLen);
      Assemble(data[..len], text, pos, oldLen, ins);
    }

    // Everything but the new length.
    method Place(pos: nat, oldLen: nat, ins: string)
      requires Valid() && pos + oldLen <= len
      modifies this`data, data
      ensures data == old(data) || fresh(data)
      ensures len + |ins| - oldLen < data.Length
      ensures forall k :: 0 <= k < pos ==> data[k] == old(data[k])
      ensures forall k :: pos <= k < pos + |ins| ==> data[k] == ins[k - pos]
      ensures forall k :: pos + |ins| <= k < len + |ins| - oldLen ==> data[k] == old(data[k - |ins| + oldLen])
    {
      MakeRoom(pos, oldLen, |ins|);
      Overwrite(pos, ins);
    }

    method SetLength(n: nat)
      requires n < data.Length
      modifies this`len, data
      ensures Valid() && len == n
      ensures forall k :: 0 <= k < n ==> data[k] == old(data[k])
    {
      len := n;
      data[len] := '\0';
    }

    // Moves what follows the replaced characters to where it will stay.
    method MakeRoom(pos: nat, oldLen: nat, n: nat)
      requires Valid() && pos + oldLen <= len
      modifies this`data, data
      ensures data == old(data) || fresh(data)
      ensures len + n - oldLen < data.Length
      ensures forall k :: 0 <= k < pos ==> data[k] == old(data[k])
      ensures forall k :: pos + n <= k < len + n - oldLen ==> data[k] == old(data[k - n + oldLen])
    {
      if n > oldLen {
        Ensure(len + (n - oldLen) + 1);
        ShiftRight(pos + oldLen, n - oldLen);
      } else if n < oldLen {
        ShiftLeft(pos + n, oldLen - n);
      }
    }

    method Overwrite(pos: nat, ins: string)
      requires pos + |ins| <= data.Length
      modifies data
      ensures forall k :: pos <= k < pos + |ins| ==> data[k] == ins[k - pos]
      ensures forall k :: 0 <= k < data.Length && !(pos <= k < pos + |ins|) ==> data[k] == old(data[k])
    {
      for i := 0 to |ins|
        invariant forall k :: pos <= k < pos + i ==> data[k] == ins[k - pos]
        invariant forall k :: 0 <= k < data.Length && !(pos <= k < pos + i) ==> data[k] == old(data[k])
      {
        data[pos + i] := ins[i];
      }
    }

    method ShiftRight(from: nat, gap: nat)
      requires Valid() && from <= len && len + gap < data.Length && gap > 0
      modifies data
      ensures forall k :: 0 <= k < from ==> data[k] == old(data[k])
      ensures forall k :: from + gap <= k <= len + gap ==> data[k] == old(data[k - gap])
    {
      ghost var before := data[..];
      var i := len;
      while i >= from
        invariant from - 1 <= i <= len
        invariant forall k :: 0 <= k <= i ==> data[k] == before[k]
        invariant forall k :: i + gap < k <= len + gap ==> data[k] == before[k - gap]
        invariant forall k :: 0 <= k < from ==> data[k] == before[k]
      {
        data[i + gap] := data[i];
        i := i - 1;
      }
    }

    method ShiftLeft(from: nat, gap: nat)
      requires Valid() && from + gap <= len && gap > 0
      modifies data
      ensures forall k :: 0 <= k < from ==> data[k] == old(data[k])
      ensures forall k :: from <= k <= len - gap ==> data[k] == old(data[k + gap])
    {
      ghost var before := data[..];
      var i := from;
      while i <= len - gap
        invariant from <= i <= len - gap + 1
        invariant forall k :: 0 <= k < from ==> data[k] == before[k]
        invariant forall k :: from <= k < i ==> data[k] == before[k + gap]
        invariant forall k :: i <= k < data.Length ==> data[k] == before[k]
      {
        data[i] := data[i + gap];
        i := i + 1;
      }
    }
  }

  /** A text given character by character is the splice. */
  lemma Assemble(t: string, s: string, pos: nat, oldLen: nat, ins: string)
    requires pos + oldLen <= |s| && |t| == |s| + |ins| - oldLen
    requires forall k :: 0 <= k < pos ==> t[k] == s[k]
    requires forall k :: pos <= k < pos + |ins| ==> t[k] == ins[k - pos]
    requires forall k :: pos + |ins| <= k < |t| ==> t[k] == s[k - |ins| + oldLen]
    ensures t == Splice(s, pos, oldLen, ins)
  {
  }
}
