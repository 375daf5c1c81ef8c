/** Python's struct.pack and struct.unpack for the fields the image tools use, without padding between fields. */
module StructPack {
  type Byte = int

  datatype Result<T> = Ok(value: T) | StructError

  /** An unsigned number of `width` bytes (I or Q), or a string of exactly `width` bytes (s). */
  datatype Field = Number(width: nat) | Text(width: nat)
  datatype Value = Num(number: int) | Data(bytes: seq<Byte>)

  datatype Format = Format(bigEndian: bool, fields: seq<Field>)

  function Power256(n: nat): (p: int)
    ensures p > 0
  {
    if n == 0 then 1 else 256 * Power256(n - 1)
  }

  function Big(n: int, width: nat): (s: seq<Byte>)
    ensures |s| == width
    decreases width
  {
    if width == 0 then [] else Big(n / 256, width - 1) + [n % 256]
  }

  function Little(n: int, width: nat): (s: seq<Byte>)
    ensures |s| == width
    decreases width
  {
    if width == 0 then [] else [n % 256] + Little(n / 256, width - 1)
  }

  function BigValue(s: seq<Byte>): int {
    if s == [] then 0 else 256 * BigValue(s[..|s| - 1]) + s[|s| - 1]
  }

  function LittleValue(s: seq<Byte>): int {
    if s == [] then 0 else s[0] + 256 * LittleValue(s[1..])
  }

  predicate Bytes(s: seq<Byte>) {
    forall i :: 0 <= i < |s| ==> 0 <= s[i] < 256
  }

  /** Text is cut, or filled up with zeros. */
  function Padded(s: seq<Byte>, width: nat): (t: seq<Byte>)
    ensures |t| == width
  {
    if |s| >= width then s[..width] else s + seq(width - |s|, _ => 0)
  }

  predicate FitsField(f: Field, v: Value) {
    match f
    case Number(width) => v.Num? && 0 <= v.number < Power256(width)
    case Text(_) => v.Data?
  }

  function StoredField(f: Field, v: Value): Value {
    if f.Text? && v.Data? then Data(Padded(v.bytes, f.width)) else v
  }

  function PackField(big: bool, f: Field, v: Value): (s: seq<Byte>)
    requires FitsField(f, v)
    ensures |s| == f.width
  {
    match f
    case Number(width) => if big then Big(v.number, width) else Little(v.number, width)
    case Text(width) => Padded(v.bytes, width)
  }

  function UnpackField(big: bool, f: Field, s: seq<Byte>): Value {
    match f
    case Number(_) => Num(if big then BigValue(s) else LittleValue(s))
    case Text(_) => Data(s)
  }

  predicate Fits(fs: seq<Field>, vs: seq<Value>) {
    |vs| == |fs| && forall i :: 0 <= i < |fs| ==> FitsField(fs[i], vs[i])
  }

  /** What is left of the values once packed. */
  function Stored(fs: seq<Field>, vs: seq<Value>): (stored: seq<Value>)
    requires |fs| == |vs|
    ensures |stored| == |fs| && forall i :: 0 <= i < |fs| ==> stored[i] == StoredField(fs[i], vs[i])
  {
    seq(|fs|, i requires 0 <= i < |fs| => StoredField(fs[i], vs[i]))
  }

  /** struct.calcsize */
  function Size(fs: seq<Field>): nat {
    if fs == [] then 0 else fs[0].width + Size(fs[1..])
  }

  /** Where field k starts. */
  function Offset(fs: seq<Field>, k: nat): nat
    requires k <= |fs|
  {
    if k == 0 then 0 else Offset(fs, k - 1) + fs[k - 1].width
  }

  function PackFields(big: bool, fs: seq<Field>, vs: seq<Value>): (s: seq<Byte>)
    requires Fits(fs, vs)
    ensures |s| == Size(fs)
    decreases |fs|
  {
    if fs == [] then [] else PackField(big, fs[0], vs[0]) + PackFields(big, fs[1..], vs[1..])
  }

  function UnpackFields(big: bool, fs: seq<Field>, s: seq<Byte>): (vs: seq<Value>)
    requires |s| == Size(fs)
    ensures |vs| == |fs|
    decreases |fs|
  {
    if fs == [] then []
    else [UnpackField(big, fs[0], s[..fs[0].width])] + UnpackFields(big, fs[1..], s[fs[0].width..])
  }

  function Pack(format: Format, vs: seq<Value>): Result<seq<Byte>> {
    if Fits(format.fields, vs) then Ok(PackFields(format.bigEndian, format.fields, vs)) else StructError
  }

  function Unpack(format: Format, s: seq<Byte>): Result<seq<Value>> {
    if |s| == Size(format.fields) then Ok(UnpackFields(format.bigEndian, format.fields, s)) else StructError
  }

  lemma {:induction false} SizeIsOffset(fs: seq<Field>, k: nat)
    requires k <= |fs|
    ensures Size(fs[..k]) == Offset(fs, k)
  {
    if k > 0 {
      SizeIsOffset(fs, k - 1);
      SizeOfAppend(fs[..k - 1], fs[k - 1]);
      assert fs[..k] == fs[..k - 1] + [fs[k - 1]];
    }
  }

  lemma {:induction false} SizeOfAppend(fs: seq<Field>, f: Field)
    ensures Size(fs + [f]) == Size(fs) + f.width
  {
    if fs != [] {
      SizeOfAppend(fs[1..], f);
      assert (fs + [f])[1..] == fs[1..] + [f];
    }
  }

  lemma {:induction false} BigRead(n: int, width: nat)
    requires 0 <= n < Power256(width)
    ensures BigValue(Big(n, width)) == n
  {
    if width > 0 {
      BigRead(n / 256, width - 1);
      var s := Big(n, width);
      assert s[..|s| - 1] == Big(n / 256, width - 1);
    }
  }

  lemma {:induction false} LittleRead(n: int, width: nat)
    requires 0 <= n < Power256(width)
    ensures LittleValue(Little(n, width)) == n
  {
    if width > 0 {
      LittleRead(n / 256, width - 1);
      assert Little(n, width)[1..] == Little(n / 256, width - 1);
    }
  }

  lemma {:induction false} BigWritten(s: seq<Byte>)
    requires Bytes(s)
    ensures 0 <= BigValue(s) < Power256(|s|) && Big(BigValue(s), |s|) == s
  {
    if s != [] {
      BigWritten(s[..|s| - 1]);
      assert s[..|s| - 1] + [s[|s| - 1]] == s;
    }
  }

  lemma {:induction false} LittleWritten(s: seq<Byte>)
    requires Bytes(s)
    ensures 0 <= LittleValue(s) < Power256(|s|) && Little(LittleValue(s), |s|) == s
  {
    if s != [] {
      LittleWritten(s[1..]);
      assert [s[0]] + s[1..] == s;
    }
  }

  lemma UnpackPackField(big: bool, f: Field, v: Value)
    requires FitsField(f, v)
    ensures UnpackField(big, f, PackField(big, f, v)) == StoredField(f, v)
  {
    if f.Number? {
      BigRead(v.number, f.width);
      LittleRead(v.number, f.width);
    }
  }

  lemma PackUnpackField(big: bool, f: Field, s: seq<Byte>)
    requires |s| == f.width && Bytes(s)
    ensures FitsField(f, UnpackField(big, f, s)) && PackField(big, f, UnpackField(big, f, s)) == s
  {
    BigWritten(s);
    LittleWritten(s);
  }

  lemma {:induction false} UnpackPackFields(big: bool, fs: seq<Field>, vs: seq<Value>)
    requires Fits(fs, vs)
    ensures UnpackFields(big, fs, PackFields(big, fs, vs)) == Stored(fs, vs)
    decreases |fs|
  {
    if fs != [] {
      var head, rest := PackField(big, fs[0], vs[0]), PackFields(big, fs[1..], vs[1..]);
      assert (head + rest)[..|head|] == head && (head + rest)[|head|..] == rest;
      UnpackPackField(big, fs[0], vs[0]);
      UnpackPackFields(big, fs[1..], vs[1..]);
      assert Stored(fs, vs) == [StoredField(fs[0], vs[0])] + Stored(fs[1..], vs[1..]);
    }
  }

  lemma {:induction false} PackUnpackFields(big: bool, fs: seq<Field>, s: seq<Byte>)
    requires |s| == Size(fs) && Bytes(s)
    ensures Fits(fs, UnpackFields(big, fs, s)) && PackFields(big, fs, UnpackFields(big, fs, s)) == s
    decreases |fs|
  {
    if fs != [] {
      var w := fs[0].width;
      PackUnpackField(big, fs[0], s[..w]);
      PackUnpackFields(big, fs[1..], s[w..]);
      var vs := UnpackFields(big, fs, s);
      assert vs[1..] == UnpackFields(big, fs[1..], s[w..]);
      assert s == s[..w] + s[w..];
    }
  }

  /** Packing succeeds exactly on values that fit their fields; unpacking then gives the values back, texts filled
      up to their width; and packing what was unpacked from any bytes gives the same bytes. */
  lemma RoundTrip(format: Format, vs: seq<Value>, s: seq<Byte>)
    ensures Pack(format, vs).Ok? <==> Fits(format.fields, vs)
    ensures Pack(format, vs).Ok? ==> Unpack(format, Pack(format, vs).value) == Ok(Stored(format.fields, vs))
    ensures Bytes(s) && Unpack(format, s).Ok? ==> Pack(format, Unpack(format, s).value) == Ok(s)
  {
    if Fits(format.fields, vs) {
      UnpackPackFields(format.bigEndian, format.fields, vs);
    }
    if Bytes(s) && |s| == Size(format.fields) {
      PackUnpackFields(format.bigEndian, format.fields, s);
    }
  }

  /** The bytes of the leading fields, those before `Offset(fs, k)`, do not depend on the values after them. */
  lemma PackedInOrder(big: bool, fs: seq<Field>, vs: seq<Value>, vs': seq<Value>, k: nat)
    requires Fits(fs, vs) && Fits(fs, vs') && k <= |fs| && vs[..k] == vs'[..k]
    ensures Offset(fs, k) <= Size(fs)
    ensures PackFields(big, fs, vs)[..Offset(fs, k)] == PackFields(big, fs, vs')[..Offset(fs, k)]
  {
    SizeIsOffset(fs, k);
    LeadingFields(big, fs, vs, k);
    LeadingFields(big, fs, vs', k);
  }

  lemma {:induction false} LeadingFields(big: bool, fs: seq<Field>, vs: seq<Value>, k: nat)
    requires Fits(fs, vs) && k <= |fs|
    ensures Fits(fs[..k], vs[..k]) && Size(fs[..k]) <= Size(fs)
    ensures PackFields(big, fs, vs)[..Size(fs[..k])] == PackFields(big, fs[..k], vs[..k])
    decreases |fs|
  {
    if k > 0 {
      LeadingFields(big, fs[1..], vs[1..], k - 1);
      assert fs[..k][1..] == fs[1..][..k - 1] && vs[..k][1..] == vs[1..][..k - 1];
    }
  }

  lemma {:induction false} OffsetShift(fs: seq<Field>, k: nat)
    requires k < |fs|
    ensures Offset(fs, k + 1) == fs[0].width + Offset(fs[1..], k)
  {
    if k > 0 {
      OffsetShift(fs, k - 1);
    }
  }

  lemma FieldBehind(packed: seq<Byte>, head: seq<Byte>, rest: seq<Byte>, from: nat, field: seq<Byte>)
    requires packed == head + rest && from + |field| <= |rest| && rest[from..from + |field|] == field
    ensures packed[|head| + from..|head| + from + |field|] == field
  {
  }

  /** The bytes of field k stand at its offset. */
  predicate StandsAt(big: bool, fs: seq<Field>, vs: seq<Value>, packed: seq<Byte>, k: nat)
    requires Fits(fs, vs) && k < |fs|
  {
    var from := Offset(fs, k);
    from + fs[k].width <= |packed| && packed[from..from + fs[k].width] == PackField(big, fs[k], vs[k])
  }

  lemma {:induction false} FieldBytes(big: bool, fs: seq<Field>, vs: seq<Value>, k: nat)
    requires Fits(fs, vs) && k < |fs|
    ensures StandsAt(big, fs, vs, PackFields(big, fs, vs), k)
    decreases |fs|
  {
    hide PackFields, Size, Offset, StandsAt, PackField, FitsField;
    FirstField(big, fs, vs);
    if k == 0 {
      AtFront(big, fs, vs);
    } else {
      FieldBytes(big, fs[1..], vs[1..], k - 1);
      OneFurther(big, fs, vs, k);
    }
  }

  lemma AtFront(big: bool, fs: seq<Field>, vs: seq<Value>)
    requires Fits(fs, vs) && fs != []
    ensures StandsAt(big, fs, vs, PackFields(big, fs, vs), 0)
  {
    FirstField(big, fs, vs);
    hide PackFields, Size, PackField;
  }

  lemma OneFurther(big: bool, fs: seq<Field>, vs: seq<Value>, k: nat)
    requires Fits(fs, vs) && 0 < k < |fs|
    requires StandsAt(big, fs[1..], vs[1..], PackFields(big, fs[1..], vs[1..]), k - 1)
    ensures StandsAt(big, fs, vs, PackFields(big, fs, vs), k)
  {
    hide PackFields, Size, Offset, PackField;
    FirstField(big, fs, vs);
    OffsetShift(fs, k - 1);
    FieldBehind(PackFields(big, fs, vs), PackField(big, fs[0], vs[0]), PackFields(big, fs[1..], vs[1..]),
                Offset(fs[1..], k - 1), PackField(big, fs[k], vs[k]));
  }

  lemma FirstField(big: bool, fs: seq<Field>, vs: seq<Value>)
    requires Fits(fs, vs) && fs != []
    ensures PackFields(big, fs, vs) == PackField(big, fs[0], vs[0]) + PackFields(big, fs[1..], vs[1..])
    ensures Size(fs) == fs[0].width + Size(fs[1..]) && Offset(fs, 0) == 0
  {
    hide PackField, FitsField;
  }

  /** Each field's bytes stand at its offset. */
  lemma PackedField(format: Format, vs: seq<Value>, s: seq<Byte>, k: nat)
    requires Pack(format, vs) == Ok(s) && k < |format.fields|
    ensures |vs| == |format.fields| && FitsField(format.fields[k], vs[k])
    ensures var from := Offset(format.fields, k);
            var width := format.fields[k].width;
            from + width <= |s| && s[from..from + width] == PackField(format.bigEndian, format.fields[k], vs[k])
  {
    hide PackFields, Size, Offset;
    FieldBytes(format.bigEndian, format.fields, vs, k);
  }
}
