/** Dracon::Buffer: an array with a current window, the read buffer of every session. */
module WindowBuffer {
  import opened Basics
  import opened ByteStrings

  class Buffer {
    var data: array<Byte>   // empty when the source holds no memory
    var current: nat        // m_current and m_end as offsets into the array
    var end: nat

    /** The window lies inside the array. */
    ghost predicate Valid()
      reads this
    {
      current <= end <= data.Length
    }

    /** currentString(). */
    function Window(): Bytes
      requires Valid()
      reads this, data
    {
      data[current..end]
    }

    constructor (size: nat)
      ensures Valid() && fresh(data) && data.Length == size && current == 0 && end == size
    {
      data := new Byte[size](_ => 0);
      current, end := 0, size;
    }

    method Reset()
      modifies this`current, this`end
      ensures Valid() && current == 0 && end == data.Length
    {
      current, end := 0, data.Length;
    }

    method Resize(size: nat)
      modifies this
      ensures Valid() && current == 0 && end == data.Length == size
      ensures data == old(data) || fresh(data)
      ensures data[..Min(size, old(data.Length))] == old(data[..Min(size, data.Length)])
    {
      if size == data.Length {
        Reset();
        return;
      }
      var kept := Min(size, data.Length);
      var tmp := new Byte[size](_ => 0);
      forall i | 0 <= i < kept {
        tmp[i] := data[i];
      }
      data := tmp;
      Reset();
    }

    /** Moves the front of the window, but never past its end. */
    method Advance(n: nat)
      requires Valid()
      modifies this`current
      ensures Valid() && current == Min(old(current) + n, end)
      ensures Window() == old(Window())[Min(n, |old(Window())|)..]
    {
      current := current + n;
      if current > end {
        current := end;
      }
    }

    function CurrentSize(): nat
      requires Valid()
      reads this
    {
      end - current
    }

    /** The caller must not ask for more than the array holds. */
    method SetCurrentSize(n: nat)
      requires current + n <= data.Length
      modifies this`end
      ensures Valid() && end == current + n
    {
      end := current + n;
    }

    /** operator=(string_view). */
    method Assign(s: Bytes)
      modifies this, data
      ensures Valid() && Window() == s && data.Length == |s|
      ensures data == old(data) || fresh(data)
    {
      Resize(|s|);
      forall i | 0 <= i < |s| {
        data[i] := s[i];
      }
      SetCurrentSize(|s|);
    }

    /**
      operator*=(string_view): the text goes to the front and the window is what is left
      behind it; but a text that fills the array or more replaces the array, and then the
      window is the text itself.
    */
    method Prepend(s: Bytes)
      modifies this, data
      ensures Valid() && (data == old(data) || fresh(data))
      ensures old(data.Length) <= |s| ==> Window() == s && data.Length == |s|
      ensures old(data.Length) > |s| ==>
                data == old(data) && current == |s| && end == data.Length && data[..|s|] == s
    {
      if data.Length <= |s| {
        Assign(s);
        return;
      }
      Reset();
      forall i | 0 <= i < |s| {
        data[i] := s[i];
      }
      Advance(|s|);
    }

    /** Moves the window to the front of the array. */
    method Commit()
      requires Valid()
      modifies this, data
      ensures Valid() && current == 0 && data == old(data) && Window() == old(Window())
    {
      if current == 0 {
        return;
      }
      ghost var was := Window();
      var size := end - current;
      forall i | 0 <= i < size {
        data[i] := data[current + i];
      }
      current := 0;
      end := size;
    }

    method Clear()
      modifies this
      ensures Valid() && Window() == [] && data.Length == 0 && fresh(data)
    {
      data := new Byte[0];
      Reset();
    }
  }
}
