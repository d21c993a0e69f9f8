/** Device number packing of the tether (lib/tether/tether_linux.go, Mkdev).

    Go's `int` is 64 bits wide; shifts, `&` and `|` on it act on its
    two's-complement bit pattern, so the model works on `bv64` directly.
    A non-negative Go int below 2^63 has the same bit pattern as its value. */
module TetherMkdev {

  /** Major numbers below this fit in 12 bits and survive the packing. */
  const MajorLimit: bv64 := 0x1000
  /** Minor numbers below this fit in 20 bits and survive the packing. */
  const MinorLimit: bv64 := 0x10_0000

  /** Packs a major/minor pair into one device number, bit for bit as the source.
      Whatever the arguments, the low byte is the minor's low byte and bits
      8-19 hold the low 12 bits of the major; the bounds below decide whether
      the rest survives. */
  function Mkdev(major: bv64, minor: bv64): (dev: bv64)
    ensures dev & 0xff == minor & 0xff
    ensures Major(dev) == major & 0xfff
  {
    (major << 8) | (minor & 0xff) | ((minor & 0xfff00) << 12)
  }

  /** The major number stored in a packed device number (the glibc `major` of a 32-bit dev_t). */
  function Major(dev: bv64): bv64
  {
    (dev >> 8) & 0xfff
  }

  /** The minor number stored in a packed device number (the glibc `minor` of a 32-bit dev_t). */
  function Minor(dev: bv64): bv64
  {
    (dev & 0xff) | ((dev >> 12) & 0xfff00)
  }

  /** For a 12-bit major and a 20-bit minor the packing loses nothing:
      the low byte is the low byte of the minor, and Major and Minor
      recover both halves; the result fits in 32 bits. */
  lemma MkdevRoundTrip(major: bv64, minor: bv64)
    requires major < MajorLimit && minor < MinorLimit
    ensures Mkdev(major, minor) & 0xff == minor & 0xff
    ensures Major(Mkdev(major, minor)) == major
    ensures Minor(Mkdev(major, minor)) == minor
    ensures Mkdev(major, minor) < 0x1_0000_0000
  {
  }

  /** Conversely every 32-bit device number is the packing of its own
      major and minor numbers. */
  lemma MkdevFromParts(dev: bv64)
    requires dev < 0x1_0000_0000
    ensures Major(dev) < MajorLimit && Minor(dev) < MinorLimit
    ensures Mkdev(Major(dev), Minor(dev)) == dev
  {
  }

  /** Within the bounds, different pairs give different device numbers. */
  lemma MkdevInjective(major1: bv64, minor1: bv64, major2: bv64, minor2: bv64)
    requires major1 < MajorLimit && minor1 < MinorLimit
    requires major2 < MajorLimit && minor2 < MinorLimit
    requires Mkdev(major1, minor1) == Mkdev(major2, minor2)
    ensures major1 == major2 && minor1 == minor2
  {
  }

  /** The bounds are needed: a major of 4096 overlaps the upper minor bits,
      so (4096, 0) and (0, 256) pack to the same number. */
  lemma MkdevCollidesOutsideBounds()
    ensures Mkdev(MajorLimit, 0) == Mkdev(0, 0x100)
    ensures Major(Mkdev(MajorLimit, 0)) != MajorLimit
  {
  }
}
