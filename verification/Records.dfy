/** The fields a serializable object hands to a serialize action, and the schema that
    says which. */
module Records {
  import opened Arithmetic
  import opened Common

  type Byte = n: nat | n < 256

  const TWO32: nat := 0x1_0000_0000

  /** Unsigned integers of 1, 2, 4 or 8 bytes (signed ones are handled as these),
      booleans, buffers of a fixed length, buffers with a length, buffers that end
      with a terminator, strings, and nested objects. */
  datatype Kind = Int(width: nat) | Bool | Fixed(len: nat) | Carrier | Terminated(t: Byte) | Str
                | Object(fields: seq<Kind>)

  /** `Overlong` is a carrier that claims one byte more than was read for it. */
  datatype Value = Num(n: nat) | Flag(b: bool) | Bytes(s: seq<Byte>) | Overlong(s: seq<Byte>) | Fields(fs: seq<Value>)

  predicate ProperWidth(w: nat) {
    w == 1 || w == 2 || w == 4 || w == 8
  }

  predicate ProperKind(k: Kind)
    decreases k, 0
  {
    match k
    case Int(w) => ProperWidth(w)
    case Object(fields) => ProperKinds(fields)
    case _ => true
  }

  predicate ProperKinds(ks: seq<Kind>)
    decreases ks
  {
    ks == [] || (ProperKind(ks[0]) && ProperKinds(ks[1..]))
  }

  /** v is a value of kind k.  A terminated buffer is what stands up to and including
      the first terminator; lengths fit 32 bits. */
  predicate HasKind(v: Value, k: Kind)
    decreases k, 0
  {
    match k
    case Int(w) => v.Num? && ProperWidth(w) && v.n < Power(256, w)
    case Bool => v.Flag?
    case Fixed(len) => v.Bytes? && |v.s| == len < TWO32
    case Carrier => v.Bytes? && |v.s| < TWO32
    case Terminated(t) => v.Bytes? && 0 < |v.s| < TWO32 && v.s[|v.s| - 1] == t && t !in v.s[..|v.s| - 1]
    case Str => v.Bytes? && |v.s| < TWO32 - 4
    case Object(fields) => v.Fields? && HasKinds(v.fs, fields)
  }

  predicate HasKinds(vs: seq<Value>, ks: seq<Kind>)
    decreases ks
  {
    |vs| == |ks| && (ks == [] || (HasKind(vs[0], ks[0]) && HasKinds(vs[1..], ks[1..])))
  }

  lemma Widths()
    ensures Power(256, 1) == 0x100 && Power(256, 2) == 0x1_0000 && Power(256, 4) == TWO32
    ensures Power(256, 8) == 0x1_0000_0000_0000_0000
  {
    assert Power(256, 4) == 256 * (256 * (256 * (256 * Power(256, 0))));
    assert Power(256, 8) == 256 * (256 * (256 * (256 * Power(256, 4))));
  }

  /** The outcome of reading something at a cursor. */
  datatype Read<T> = Got(value: T, cur: nat) | Failed

  lemma StandsOne(buf: seq<Byte>, cur: nat, c: Byte)
    requires StandsAt(buf, cur, [c])
    ensures cur + 1 <= |buf| && buf[cur] == c
  {
    assert buf[cur] == buf[cur..cur + 1][0];
  }

  function ReadBytes(buf: seq<Byte>, cur: nat, len: nat): Read<seq<Byte>> {
    if cur + len > |buf| then Failed else Got(buf[cur..cur + len], cur + len)
  }

  lemma ReadBytesAt(buf: seq<Byte>, cur: nat, s: seq<Byte>)
    requires StandsAt(buf, cur, s)
    ensures ReadBytes(buf, cur, |s|) == Got(s, cur + |s|)
  {
  }

  lemma {:induction false} KindsAreProper(vs: seq<Value>, ks: seq<Kind>)
    requires HasKinds(vs, ks)
    ensures ProperKinds(ks)
    decreases ks
  {
    if ks != [] {
      KindIsProper(vs[0], ks[0]);
      KindsAreProper(vs[1..], ks[1..]);
    }
  }

  lemma {:induction false} KindIsProper(v: Value, k: Kind)
    requires HasKind(v, k)
    ensures ProperKind(k)
    decreases k, 0
  {
    if k.Object? {
      KindsAreProper(v.fs, k.fields);
    }
  }
}
