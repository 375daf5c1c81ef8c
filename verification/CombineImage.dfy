/** Putting bootloader, header and application into one image. The IntelHex library is specified by contract. */
module CombineImage {
  import opened StructPack
  import opened FirmwareHeader

  type Image = map<int, Byte>

  datatype Overlap = RaiseError | KeepExisting

  /** What combine comes to: an image, or the exception it ends with. */
  datatype Output = Written(image: Image) | HeaderRefused | NothingToWrite | Overlapping

  predicate Disjoint(a: Image, b: Image) {
    forall k :: k in a ==> k !in b
  }

  function ByteFor(start: int, data: seq<Byte>, k: int): Byte
    requires start <= k < start + |data|
  {
    data[k - start]
  }

  /** The bytes laid out from `start` on. */
  function Placed(start: int, data: seq<Byte>): (image: Image)
    ensures forall k :: k in image <==> start <= k < start + |data|
    ensures forall k :: k in image ==> image[k] == data[k - start]
  {
    map k | start <= k < start + |data| :: ByteFor(start, data, k)
  }

  /** The image holds the bytes from `start` on. */
  predicate Holds(image: Image, start: int, data: seq<Byte>) {
    forall k :: start <= k < start + |data| ==> k in image && image[k] == data[k - start]
  }

  function Region(image: Image, start: int, size: nat): (data: seq<Byte>)
    requires forall k :: start <= k < start + size ==> k in image
    ensures |data| == size
  {
    seq(size, i requires 0 <= i < size => image[start + i])
  }

  lemma RegionHeld(image: Image, start: int, data: seq<Byte>)
    requires Holds(image, start, data)
    ensures Region(image, start, |data|) == data
  {
    forall i | 0 <= i < |data|
      ensures Region(image, start, |data|)[i] == data[i]
    {
      assert image[start + i] == data[start + i - start];
    }
  }

  class IntelHex {
    var buffer: Image

    constructor ()
      ensures buffer == map[]
    {
      buffer := map[];
    }

    /** fromfile or loadbin. */
    method Load(contents: Image)
      modifies this
      ensures buffer == contents
    {
      buffer := contents;
    }

    method Puts(start: int, data: seq<Byte>)
      modifies this
      ensures buffer == old(buffer) + Placed(start, data)
    {
      buffer := buffer + Placed(start, data);
    }

    /** Take over the other image's bytes; where both have one, raise an error or keep the own byte. */
    method Merge(other: IntelHex, overlap: Overlap) returns (ok: bool)
      requires other != this
      modifies this
      ensures ok <==> overlap == KeepExisting || Disjoint(old(buffer), other.buffer)
      ensures ok ==> buffer == other.buffer + old(buffer)
    {
      if overlap == RaiseError && !Disjoint(buffer, other.buffer) {
        return false;
      }
      buffer := other.buffer + buffer;
      ok := true;
    }
  }

  /** Wherever the application overlaps the bootloader or the header, they have the same bytes. */
  ghost predicate Agree(boot: Image, headerAddr: int, header: seq<Byte>, appAddr: int, app: seq<Byte>) {
    && (forall k :: k in boot && appAddr <= k < appAddr + |app| ==> boot[k] == app[k - appAddr])
    && forall k :: headerAddr <= k < headerAddr + |header| && appAddr <= k < appAddr + |app| ==>
                     ByteFor(headerAddr, header, k) == app[k - appAddr]
  }

  /** An image with bootloader and header unchanged and nothing else beside the application; and the application is
      unchanged exactly when the parts agree wherever it overlaps them. */
  ghost predicate Combined(output: Image, boot: Image, headerAddr: int, header: seq<Byte>, appAddr: int,
                           app: seq<Byte>)
  {
    && (forall k :: k in output <==>
          k in boot || headerAddr <= k < headerAddr + |header| || appAddr <= k < appAddr + |app|)
    && (forall k :: k in boot ==> k in output && output[k] == boot[k])
    && Holds(output, headerAddr, header)
    && (Holds(output, appAddr, app) <==> Agree(boot, headerAddr, header, appAddr, app))
  }

  lemma MergedIsCombined(boot: Image, headerAddr: int, header: seq<Byte>, appAddr: int, app: seq<Byte>)
    requires Disjoint(boot, Placed(headerAddr, header))
    ensures Combined(Placed(appAddr, app) + (Placed(headerAddr, header) + boot), boot, headerAddr, header, appAddr, app)
  {
    var first := Placed(headerAddr, header) + boot;
    var output := Placed(appAddr, app) + first;
    assert forall k :: k in first ==> output[k] == first[k];
    assert forall k :: headerAddr <= k < headerAddr + |header| ==> k in Placed(headerAddr, header);
    assert Holds(first, headerAddr, header);
    if Holds(output, appAddr, app) {
      forall k | headerAddr <= k < headerAddr + |header| && appAddr <= k < appAddr + |app|
        ensures ByteFor(headerAddr, header, k) == app[k - appAddr]
      {
        assert output[k] == first[k];
      }
    }
  }

  /** The merging part of combine, for a binary application: an image exactly when there is something to write and the
      parts that must not overlap do not. */
  method Combine(bootloader: Image, noBootloader: bool, app: seq<Byte>, appAddr: int, headerAddr: int,
                 header: seq<Byte>, overlap: Overlap) returns (output: Output)
    requires header != []
    ensures var boot := if noBootloader then map[] else bootloader;
            var apart := Disjoint(boot, Placed(headerAddr, header));
            && (output.Written? <==>
                  && app != [] && (noBootloader || bootloader != map[]) && apart
                  && (overlap == KeepExisting || Disjoint(Placed(headerAddr, header) + boot, Placed(appAddr, app))))
            && (output.NothingToWrite? <==> (!noBootloader && bootloader == map[]) || (apart && app == []))
            && !output.HeaderRefused?
            && (output.Written? ==> Combined(output.image, boot, headerAddr, header, appAddr, app))
  {
    hide Placed, Combined;
    var image := new IntelHex();
    var headerHex := new IntelHex();
    var appHex := new IntelHex();
    appHex.Puts(appAddr, app);
    headerHex.Puts(headerAddr, header);
    if !noBootloader {
      if bootloader == map[] {
        return NothingToWrite;
      }
      var bootHex := new IntelHex();
      bootHex.Load(bootloader);
      var ok := image.Merge(bootHex, RaiseError);
    }
    ghost var boot := image.buffer;
    assert boot == if noBootloader then map[] else bootloader;
    assert headerHex.buffer == Placed(headerAddr, header) && appHex.buffer == Placed(appAddr, app);
    var merged := image.Merge(headerHex, RaiseError);
    if !merged {
      return Overlapping;
    }
    if app == [] {
      return NothingToWrite;
    }
    MergedIsCombined(boot, headerAddr, header, appAddr, app);
    merged := image.Merge(appHex, overlap);
    if !merged {
      return Overlapping;
    }
    output := Written(image.buffer);
  }

  /** What a bootloader checks: the header read from the image has the size and the digest of the application read from
      it, and its checksum is its own. */
  ghost predicate Verifies(image: Image, headerAddr: int, appAddr: int, size: nat, digest: seq<Byte> -> seq<Byte>,
                           crc32: Checksum)
  {
    && (forall k :: headerAddr <= k < headerAddr + CRC_OFFSET + 4 ==> k in image)
    && (forall k :: appAddr <= k < appAddr + size ==> k in image)
    && var header := Region(image, headerAddr, CRC_OFFSET + 4);
       var fields := Unpack(UPDATE_FORMAT, header);
       && fields.Ok? && |fields.value| == 8
       && fields.value[7] == Num(crc32(header[..CRC_OFFSET]) % UINT32_LIMIT)
       && fields.value[3] == Num(size)
       && fields.value[4] == Data(digest(Region(image, appAddr, size)) + seq(32, _ => 0))
  }

  /** An image that holds the header of an application verifies if and only if what it has in the application's
      place has the digest of the application. */
  lemma ImageVerifiesIff(image: Image, headerAddr: int, appAddr: int, app: seq<Byte>, version: int,
                         digest: seq<Byte> -> seq<Byte>, crc32: Checksum)
    requires IsSha256(digest) && UpdateHeader(app, version, digest, crc32).Ok?
    requires Holds(image, headerAddr, UpdateHeader(app, version, digest, crc32).value)
    requires forall k :: appAddr <= k < appAddr + |app| ==> k in image
    ensures Verifies(image, headerAddr, appAddr, |app|, digest, crc32)
            <==> digest(Region(image, appAddr, |app|)) == digest(app)
  {
    var header := UpdateHeader(app, version, digest, crc32).value;
    UpdateHeaderReads(app, version, digest, crc32);
    assert forall k :: headerAddr <= k < headerAddr + |header| ==> k in image;
    RegionHeld(image, headerAddr, header);
    SamePrefix(digest(Region(image, appAddr, |app|)), digest(app), seq(32, _ => 0));
    hide UpdateHeader, Unpack, Region;
  }

  lemma SamePrefix(a: seq<Byte>, b: seq<Byte>, tail: seq<Byte>)
    requires |a| == |b|
    ensures a + tail == b + tail <==> a == b
  {
    assert (a + tail)[..|a|] == a && (b + tail)[..|a|] == b;
  }

  lemma ApartAgree(boot: Image, headerAddr: int, header: seq<Byte>, appAddr: int, app: seq<Byte>)
    requires Disjoint(Placed(headerAddr, header) + boot, Placed(appAddr, app))
    ensures Agree(boot, headerAddr, header, appAddr, app)
  {
    forall k | appAddr <= k < appAddr + |app|
      ensures headerAddr <= k < headerAddr + |header| ==> ByteFor(headerAddr, header, k) == app[k - appAddr]
      ensures k in boot ==> boot[k] == app[k - appAddr]
    {
      Apart(Placed(headerAddr, header) + boot, appAddr, app, k);
    }
  }

  lemma Apart(first: Image, appAddr: int, app: seq<Byte>, k: int)
    requires Disjoint(first, Placed(appAddr, app)) && appAddr <= k < appAddr + |app|
    ensures k !in first
  {
    assert k in Placed(appAddr, app);
  }

  /** The whole of combine. An image it writes verifies if and only if what stands in the application's place has
      the digest of the application. When errors are raised on overlap, that is always so; when existing bytes are
      kept, the image holds the application exactly when the parts agree where it overlaps them, and then it is so. */
  method CombineWithHeader(bootloader: Image, noBootloader: bool, app: seq<Byte>, appAddr: int, headerAddr: int,
                           version: int, overlap: Overlap, digest: seq<Byte> -> seq<Byte>, crc32: Checksum)
    returns (output: Output)
    requires IsSha256(digest)
    ensures output.HeaderRefused? <==> !(0 <= version < UINT64_LIMIT && |app| < UINT64_LIMIT)
    ensures output.Written? ==> forall k :: appAddr <= k < appAddr + |app| ==> k in output.image
    ensures output.Written? ==>
              (Verifies(output.image, headerAddr, appAddr, |app|, digest, crc32)
               <==> digest(Region(output.image, appAddr, |app|)) == digest(app))
    ensures output.Written? && overlap == RaiseError ==>
              Verifies(output.image, headerAddr, appAddr, |app|, digest, crc32)
    ensures output.Written? ==>
              var boot := if noBootloader then map[] else bootloader;
              var header := UpdateHeader(app, version, digest, crc32);
              && header.Ok? && Combined(output.image, boot, headerAddr, header.value, appAddr, app)
              && (Region(output.image, appAddr, |app|) == app <==> Agree(boot, headerAddr, header.value, appAddr, app))
    ensures var boot := if noBootloader then map[] else bootloader;
            var header := UpdateHeader(app, version, digest, crc32);
            output.Written? <==>
              && header.Ok? && app != [] && (noBootloader || bootloader != map[])
              && Disjoint(boot, Placed(headerAddr, header.value))
              && (overlap == KeepExisting || Disjoint(Placed(headerAddr, header.value) + boot, Placed(appAddr, app)))
  {
    UpdateHeaderReads(app, version, digest, crc32);
    hide UpdateHeader, Verifies, Placed, Disjoint, Unpack, Holds, Agree, Region, Combined;
    var header := UpdateHeader(app, version, digest, crc32);
    if header.StructError? {
      return HeaderRefused;
    }
    output := Combine(bootloader, noBootloader, app, appAddr, headerAddr, header.value, overlap);
    if output.Written? {
      ghost var boot := if noBootloader then map[] else bootloader;
      if overlap == RaiseError {
        ApartAgree(boot, headerAddr, header.value, appAddr, app);
      }
      AppPresent(output.image, boot, headerAddr, header.value, appAddr, app);
      ImageVerifiesIff(output.image, headerAddr, appAddr, app, version, digest, crc32);
    }
  }

  lemma AppPresent(image: Image, boot: Image, headerAddr: int, header: seq<Byte>, appAddr: int, app: seq<Byte>)
    requires Combined(image, boot, headerAddr, header, appAddr, app)
    ensures forall k :: appAddr <= k < appAddr + |app| ==> k in image
    ensures Region(image, appAddr, |app|) == app <==> Agree(boot, headerAddr, header, appAddr, app)
    ensures Holds(image, headerAddr, header)
  {
    hide Agree;
    if Holds(image, appAddr, app) {
      RegionHeld(image, appAddr, app);
    } else {
      var k :| appAddr <= k < appAddr + |app| && image[k] != app[k - appAddr];
      assert Region(image, appAddr, |app|)[k - appAddr] == image[k];
    }
  }
}
