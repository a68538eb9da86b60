/** The strings block (section 5.5 of the Devicetree Specification v0.4). */
module FdtStrings {
  import opened Bytes
  import opened FdtTags

  datatype Found = NotFound | At(offset: int)

  /** The string at offset p is `name`. */
  ghost predicate Named(t: seq<byte>, p: int, name: seq<byte>) {
    0 <= p && p + |name| < |t| && NoNul(name) && t[p..p + |name|] == name && t[p + |name|] == 0
  }

  ghost predicate Listed(t: seq<byte>, name: seq<byte>) {
    exists p :: Named(t, p, name)
  }

  /** fdt_find_string_len_ (lib/libfdt/fdt.c:323-333): the first place in the
      table where `name` and a NUL stand, be it inside a longer string. */
  method FindString(t: seq<byte>, name: seq<byte>) returns (r: Found)
    requires NoNul(name)
    ensures r.At? ==> Named(t, r.offset, name) && forall p :: 0 <= p < r.offset ==> !Named(t, p, name)
    ensures r.NotFound? ==> forall p :: !Named(t, p, name)
  {
    var p := 0;
    while p + |name| + 1 <= |t|
      invariant 0 <= p && forall q :: 0 <= q < p ==> !Named(t, q, name)
      decreases |t| - p
    {
      if t[p..p + |name|] == name && t[p + |name|] == 0 {
        return At(p);
      }
      p := p + 1;
    }
    return NotFound;
  }

  /** fdt_get_string (lib/libfdt/fdt_ro.c:34-98) on a finished blob: the bytes
      from the offset up to the first NUL of the block. */
  function GetString(t: seq<byte>, offset: int): (r: Text) {
    if !(0 <= offset < |t|) then NoText
    else
      var e := NulFrom(t, offset);
      if e < 0 then NoText else Text(t[offset..e])
  }

  datatype Text = NoText | Text(text: seq<byte>)

  /** A name that is there is what GetString returns. */
  lemma GetNamed(t: seq<byte>, p: int, name: seq<byte>)
    requires Named(t, p, name)
    ensures GetString(t, p) == Text(name)
  {
    NulAfter(t, p, name);
  }

  /** ... and GetString returns nothing else. */
  lemma GetIsNamed(t: seq<byte>, p: int)
    requires GetString(t, p).Text?
    ensures Named(t, p, GetString(t, p).text)
  {
    NulFirst(t, p);
  }

  /** Strings in front of the table do not disturb offsets from its end. */
  lemma NamedPrepend(front: seq<byte>, t: seq<byte>, p: int, name: seq<byte>)
    requires Named(t, p, name)
    ensures Named(front + t, |front| + p, name)
  {
    var u := front + t;
    var q := |front| + p;
    assert u[q..q + |name|] == t[p..p + |name|];
    assert u[q + |name|] == t[p + |name|];
  }

  /** Strings behind the table do not disturb offsets from its start. */
  lemma NamedAppend(t: seq<byte>, back: seq<byte>, p: int, name: seq<byte>)
    requires Named(t, p, name)
    ensures Named(t + back, p, name)
  {
    var u := t + back;
    assert u[p..p + |name|] == t[p..p + |name|];
    assert u[p + |name|] == t[p + |name|];
  }

  lemma NamedFirst(name: seq<byte>, t: seq<byte>)
    requires NoNul(name)
    ensures Named(name + [0] + t, 0, name)
  {
  }
}
