/** The growing output buffer that generated programs write to. */
module Runtime {
  import opened Text
  import opened Escape

  const INITIAL_CAPACITY: nat := 8096

  class Buffer {
    var data: array<char>
    var size: nat

    ghost predicate Valid()
      reads this, data
    {
      size < data.Length && data[size] == NUL && NoNul(data[..size])
    }

    /** The text written so far. */
    ghost function Contents(): string
      requires Valid()
      reads this, data
    {
      data[..size]
    }

    /** cweb_buffer_init, when the allocation succeeds. */
    constructor ()
      ensures Valid() && fresh(data) && Contents() == ""
    {
      var d := new char[INITIAL_CAPACITY];
      d[0] := NUL;
      data := d;
      size := 0;
    }

    /** cweb_buffer_append: double the capacity until the text and its NUL fit. */
    method Append(str: string)
      requires Valid() && NoNul(str)
      modifies this, data
      ensures Valid() && (data == old(data) || fresh(data))
      ensures Contents() == old(Contents()) + str
    {
      ghost var before := Contents();
      var needed := size + |str| + 1;
      if needed > data.Length {
        var capacity := data.Length;
        while capacity < needed
          invariant 0 < capacity
          decreases needed - capacity
        {
          capacity := capacity * 2;
        }
        var d := new char[capacity];
        for i := 0 to data.Length
          invariant data.Length <= d.Length
          invariant data == old(data) && size == old(size) && data[..] == old(data[..])
          invariant d[..i] == data[..i]
        {
          d[i] := data[i];
        }
        assert d[..size] == data[..size];
        data := d;
      }
      assert data[..size] == before;
      StrCpy(data, size, str);
      size := size + |str|;
      assert data[..size] == before + str;
    }

    /** cweb_output_raw; NULL prints nothing. */
    method OutputRaw(str: Option<string>)
      requires Valid() && (str.Some? ==> NoNul(str.value))
      modifies this, data
      ensures Valid() && (data == old(data) || fresh(data))
      ensures Contents() == old(Contents()) + if str.Some? then str.value else ""
    {
      if str.Some? {
        Append(str.value);
      }
    }

    /** cweb_output_html */
    method OutputHtml(str: Option<string>)
      requires Valid() && (str.Some? ==> NoNul(str.value) && 6 * |str.value| + 1 < SIZE_T)
      modifies this, data
      ensures Valid() && (data == old(data) || fresh(data))
      ensures Contents() == old(Contents()) + if str.Some? then Escaped(str.value) else ""
    {
      if str.Some? {
        var escaped := EscapeHtml(str.value);
        CStringIs(escaped[..], Escaped(str.value));
        Append(CString(escaped[..]));
      }
    }

    /** cweb_output_get: a copy of the buffer as a C string. */
    method Get() returns (result: array<char>)
      requires Valid()
      ensures fresh(result) && CString(result[..]) == Contents()
    {
      result := new char[size + 1];
      StrCpy(result, 0, data[..size]);
      assert result[..][..size] == data[..size] == result[0..size];
      CStringIs(result[..], data[..size]);
    }
  }
}
