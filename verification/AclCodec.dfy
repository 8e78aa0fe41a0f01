/**
 Access control lists on disk (ext4/acl.c, ext4/acl.h): a version word, then entries of four
 bytes, or eight for a named user or group.
 */
module AclCodec {

  type Byte = b: nat | b < 256

  const VERSION: nat := 1
  const HEADER: nat := 4
  const SHORT: nat := 4
  const LONG: nat := 8

  // Tags, as in linux/posix_acl.h.
  const USER_OBJ: nat := 0x01
  const USER: nat := 0x02
  const GROUP_OBJ: nat := 0x04
  const GROUP: nat := 0x08
  const MASK: nat := 0x10
  const OTHER: nat := 0x20

  datatype Entry = Plain(tag: nat, perm: nat) | Named(tag: nat, perm: nat, id: nat)

  /** The result of parsing: no list, a list, or EINVAL. */
  datatype Parsed = NoAcl | Acl(entries: seq<Entry>) | Invalid

  predicate EntryOk(e: Entry) {
    && e.perm < 0x1_0000
    && match e
       case Plain(tag, _) => tag == USER_OBJ || tag == GROUP_OBJ || tag == MASK || tag == OTHER
       case Named(tag, _, id) => (tag == USER || tag == GROUP) && id < 0x1_0000_0000
  }

  // ----- sizes -------------------------------------------------------------------------------

  /** ext4_acl_size */
  function Size(count: nat): nat {
    if count <= 4 then HEADER + count * SHORT else HEADER + 4 * SHORT + (count - 4) * LONG
  }

  /** ext4_acl_count: None for -1. */
  datatype Count = None | Some(n: nat)

  function CountOf(size: nat): Count
    requires size >= HEADER
  {
    var rest := size - HEADER;
    if rest < 4 * SHORT then
      if rest % SHORT != 0 then None else Some(rest / SHORT)
    else
      var s := rest - 4 * SHORT;
      if s % LONG != 0 then None else Some(s / LONG + 4)
  }

  /** The count is the inverse of the size: a size has a count exactly if it is the size of one. */
  lemma CountExactly(size: nat, n: nat)
    requires size >= HEADER
    ensures CountOf(size) == Some(n) <==> size == Size(n)
  {
  }

  // ----- numbers -----------------------------------------------------------------------------

  function Put16(x: nat): (r: seq<Byte>)
    requires x < 0x1_0000
  {
    [x % 256, x / 256]
  }

  function Put32(x: nat): (r: seq<Byte>)
    requires x < 0x1_0000_0000
  {
    [x % 256, x / 256 % 256, x / 0x1_0000 % 256, x / 0x100_0000]
  }

  function Get16(b: seq<Byte>, at: nat): (r: nat)
    requires at + 2 <= |b|
    ensures r < 0x1_0000 && Put16(r) == b[at..at + 2]
  {
    b[at] as nat + 256 * (b[at + 1] as nat)
  }

  function Get32(b: seq<Byte>, at: nat): (r: nat)
    requires at + 4 <= |b|
    ensures r < 0x1_0000_0000 && Put32(r) == b[at..at + 4]
  {
    FourBytes(b[at], b[at + 1], b[at + 2], b[at + 3]);
    b[at] as nat + 256 * (b[at + 1] as nat) + 0x1_0000 * (b[at + 2] as nat) + 0x100_0000 * (b[at + 3] as nat)
  }

  lemma FourBytes(a: nat, b: nat, c: nat, d: nat)
    requires a < 256 && b < 256 && c < 256 && d < 256
    ensures var x := a + 256 * b + 0x1_0000 * c + 0x100_0000 * d;
      x < 0x1_0000_0000 && x % 256 == a && x / 256 % 256 == b && x / 0x1_0000 % 256 == c && x / 0x100_0000 == d
  {
  }

  lemma Put16Injective(x: nat, y: nat)
    requires x < 0x1_0000 && y < 0x1_0000 && Put16(x) == Put16(y)
    ensures x == y
  {
    assert Put16(x)[0] == Put16(y)[0] && Put16(x)[1] == Put16(y)[1];
  }

  lemma Put32Injective(x: nat, y: nat)
    requires x < 0x1_0000_0000 && y < 0x1_0000_0000 && Put32(x) == Put32(y)
    ensures x == y
  {
    assert Put32(x)[0] == Put32(y)[0] && Put32(x)[1] == Put32(y)[1] && Put32(x)[2] == Put32(y)[2]
      && Put32(x)[3] == Put32(y)[3];
    Digits(x);
    Digits(y);
  }

  lemma Digits(x: nat)
    ensures x == x % 256 + 256 * (x / 256 % 256) + 0x1_0000 * (x / 0x1_0000 % 256) + 0x100_0000 * (x / 0x100_0000)
  {
    var a := x / 256;
    var b := a / 256;
    assert x / 0x1_0000 == b && x / 0x100_0000 == b / 256;
  }

  // ----- entries -----------------------------------------------------------------------------

  function Encode(e: Entry): (r: seq<Byte>)
    requires EntryOk(e)
    ensures |r| == if e.Plain? then SHORT else LONG
  {
    Put16(e.tag) + Put16(e.perm) + if e.Named? then Put32(e.id) else []
  }

  ghost predicate AllOk(es: seq<Entry>) {
    forall i :: 0 <= i < |es| ==> EntryOk(es[i])
  }

  ghost function EncodeAll(es: seq<Entry>): seq<Byte>
    requires AllOk(es)
  {
    if es == [] then [] else EncodeAll(es[..|es| - 1]) + Encode(es[|es| - 1])
  }

  ghost function Image(es: seq<Entry>): seq<Byte>
    requires AllOk(es)
  {
    Put32(VERSION) + EncodeAll(es)
  }

  /** What the sizes provide for: up to four entries, all short, or exactly four short ones. */
  ghost predicate Regular(es: seq<Entry>) {
    AllOk(es) && Shorts(es) == if |es| <= 4 then |es| else 4
  }

  ghost function Shorts(es: seq<Entry>): nat {
    if es == [] then 0 else Shorts(es[..|es| - 1]) + if es[|es| - 1].Plain? then 1 else 0
  }

  lemma {:induction false} ImageSize(es: seq<Entry>)
    requires AllOk(es)
    ensures Shorts(es) <= |es| && |Image(es)| == HEADER + SHORT * Shorts(es) + LONG * (|es| - Shorts(es))
  {
    if es != [] {
      ImageSize(es[..|es| - 1]);
    }
  }

  /** The space computed from the number of entries is what they take exactly for a regular list. */
  lemma SizeExactly(es: seq<Entry>)
    requires AllOk(es)
    ensures |Image(es)| == Size(|es|) <==> Regular(es)
  {
    ImageSize(es);
  }

  /** A list with a named user among three entries is not regular: it takes 20 bytes, not 16. */
  lemma ThreeEntries()
    ensures var es := [Plain(USER_OBJ, 6), Named(USER, 6, 1000), Plain(OTHER, 4)];
      AllOk(es) && !Regular(es) && |Image(es)| == 20 && Size(|es|) == 16
  {
    var es := [Plain(USER_OBJ, 6), Named(USER, 6, 1000), Plain(OTHER, 4)];
    assert es[..2] == [Plain(USER_OBJ, 6), Named(USER, 6, 1000)] && es[..2][..1] == [Plain(USER_OBJ, 6)];
    assert Shorts(es[..2]) == Shorts(es[..2][..1]) + 0;
    ImageSize(es);
  }

  /** Two lists with the same image, as far as it goes, are the same. */
  lemma {:induction false} FrontUnique(es: seq<Entry>, fs: seq<Entry>, n: nat)
    requires AllOk(es) && AllOk(fs) && n <= |es| && n <= |fs|
    requires EncodeAll(es) <= EncodeAll(fs) || EncodeAll(fs) <= EncodeAll(es)
    ensures es[..n] == fs[..n]
  {
    if n > 0 {
      FrontUnique(es, fs, n - 1);
      PrefixEncodes(es, n);
      PrefixEncodes(fs, n);
      var a := EncodeAll(es[..n - 1]);
      OneUnique(a, es[n - 1], fs[n - 1], EncodeAll(es), EncodeAll(fs));
      assert es[..n] == es[..n - 1] + [es[n - 1]] && fs[..n] == fs[..n - 1] + [fs[n - 1]];
    }
  }

  lemma {:induction false} PrefixEncodes(es: seq<Entry>, n: nat)
    requires AllOk(es) && 0 < n <= |es|
    ensures EncodeAll(es[..n - 1]) + Encode(es[n - 1]) <= EncodeAll(es)
    decreases |es| - n
  {
    assert es[..n][..n - 1] == es[..n - 1];
    if n < |es| {
      PrefixEncodes(es, n + 1);
      assert EncodeAll(es[..n]) == EncodeAll(es[..n - 1]) + Encode(es[n - 1]);
    } else {
      assert es[..n] == es;
    }
  }

  lemma OneUnique(a: seq<Byte>, e: Entry, f: Entry, s: seq<Byte>, t: seq<Byte>)
    requires EntryOk(e) && EntryOk(f) && a + Encode(e) <= s && a + Encode(f) <= t && (s <= t || t <= s)
    ensures e == f
  {
    var x, y := Encode(e), Encode(f);
    var k := |a|;
    forall i | 0 <= i < |x| && i < |y| ensures x[i] == y[i] {
      assert s[k + i] == (a + x)[k + i] && t[k + i] == (a + y)[k + i];
    }
    assert Put16(e.tag) == x[..2] && Put16(f.tag) == y[..2] && x[..2] == y[..2];
    Put16Injective(e.tag, f.tag);
    assert Put16(e.perm) == x[2..4] && Put16(f.perm) == y[2..4] && x[2..4] == y[2..4];
    Put16Injective(e.perm, f.perm);
    if e.Named? {
      assert Put32(e.id) == x[4..8] && Put32(f.id) == y[4..8] && x[4..8] == y[4..8];
      Put32Injective(e.id, f.id);
    }
  }

  /** No two regular lists have the same image. */
  lemma ImageUnique(es: seq<Entry>, fs: seq<Entry>)
    requires Regular(es) && Regular(fs) && Image(es) == Image(fs)
    ensures es == fs
  {
    SizeExactly(es);
    SizeExactly(fs);
    assert Image(es)[4..] == EncodeAll(es) && Image(fs)[4..] == EncodeAll(fs);
    FrontUnique(es, fs, |es|);
    assert es[..|es|] == es && fs[..|es|] == fs;
  }

  lemma OnlyList(es: seq<Entry>, value: seq<Byte>)
    requires Regular(es) && Image(es) == value
    ensures forall fs :: Regular(fs) && Image(fs) == value ==> fs == es
  {
    forall fs | Regular(fs) && Image(fs) == value ensures fs == es {
      ImageUnique(es, fs);
    }
  }

  // ----- ext4_acl_to_disk and ext4_acl_from_disk -------------------------------------------------

  /**
   ext4_acl_to_disk: a buffer with room for long entries only is filled entry by entry; `size`
   is the size reported for it.
   */
  method ToDisk(es: seq<Entry>) returns (ok: bool, buffer: seq<Byte>, size: nat)
    ensures ok <==> AllOk(es)
    ensures ok ==> buffer == Image(es) && size == Size(|es|) && |buffer| <= HEADER + |es| * LONG
    ensures ok && Regular(es) ==> |buffer| == size
  {
    size := Size(|es|);
    buffer := Put32(VERSION);
    var n := 0;
    assert es[..0] == [];
    while n < |es|
      invariant n <= |es| && AllOk(es[..n]) && buffer == Image(es[..n])
    {
      if !EntryOk(es[n]) {
        return false, [], 0;
      }
      assert es[..n + 1][..n] == es[..n];
      buffer := buffer + Encode(es[n]);
      n := n + 1;
    }
    assert es[..|es|] == es;
    ok := true;
    ImageSize(es);
    SizeExactly(es);
  }

  /** The entry at `at`, if there is one: None at the end of the buffer or for an unknown tag. */
  datatype Step = Stop | Next(e: Entry)

  method ReadEntry(value: seq<Byte>, at: nat) returns (r: Step)
    requires at <= |value|
    ensures r.Next? ==> EntryOk(r.e) && at + |Encode(r.e)| <= |value| && value[at..at + |Encode(r.e)|] == Encode(r.e)
    ensures r.Stop? ==> forall e :: EntryOk(e) ==> !(Encode(e) <= value[at..])
  {
    if at + SHORT > |value| {
      return Stop;
    }
    var tag, perm := Get16(value, at), Get16(value, at + 2);
    ShortParts(value, at, tag, perm);
    if tag == USER_OBJ || tag == GROUP_OBJ || tag == MASK || tag == OTHER {
      return Next(Plain(tag, perm));
    }
    if tag == USER || tag == GROUP {
      if at + LONG > |value| {
        return Stop;
      }
      var id := Get32(value, at + 4);
      LongParts(value, at, tag, perm, id);
      return Next(Named(tag, perm, id));
    }
    return Stop;
  }

  lemma ShortParts(value: seq<Byte>, at: nat, tag: nat, perm: nat)
    requires at + SHORT <= |value| && tag == Get16(value, at) && perm == Get16(value, at + 2)
    ensures value[at..at + SHORT] == Put16(tag) + Put16(perm)
    ensures forall e :: EntryOk(e) && Encode(e) <= value[at..] ==> e.tag == tag
  {
    assert value[at..at + SHORT] == value[at..at + 2] + value[at + 2..at + 4];
    forall e | EntryOk(e) && Encode(e) <= value[at..] ensures e.tag == tag {
      assert Encode(e)[..2] == Put16(e.tag) && value[at..][..2] == value[at..at + 2];
      assert Encode(e)[..2] == value[at..][..2];
      Put16Injective(e.tag, tag);
    }
  }

  lemma LongParts(value: seq<Byte>, at: nat, tag: nat, perm: nat, id: nat)
    requires at + LONG <= |value| && tag < 0x1_0000 && perm < 0x1_0000
    requires value[at..at + SHORT] == Put16(tag) + Put16(perm)
    requires id == Get32(value, at + 4)
    ensures value[at..at + LONG] == Put16(tag) + Put16(perm) + Put32(id)
  {
    assert value[at..at + LONG] == value[at..at + SHORT] + value[at + 4..at + 8];
  }

  /**
   ext4_acl_from_disk: a list is accepted exactly if it is the image of a regular list that is
   not empty, and then it is that list, the only one with this image.
   */
  method FromDisk(value: seq<Byte>) returns (r: Parsed)
    ensures r.Acl? ==> r.entries != [] && Regular(r.entries) && Image(r.entries) == value
    ensures r.Acl? ==> forall es :: Regular(es) && Image(es) == value ==> es == r.entries
    ensures r.Invalid? ==> forall es :: Regular(es) ==> Image(es) != value
    ensures r.NoAcl? <==> value == Put32(VERSION)
  {
    if |value| < HEADER || Get32(value, 0) != VERSION {
      BadHeader(value);
      return Invalid;
    }
    assert Put32(VERSION) == value[0..4] == value[..4];
    var count := CountOf(|value|);
    if count.None? {
      NoCount(value);
      return Invalid;
    }
    if count.n == 0 {
      assert value == value[..4];
      return NoAcl;
    }
    r := ReadEntries(value, count.n);
  }

  /** The loop of ext4_acl_from_disk over the entries. */
  method ReadEntries(value: seq<Byte>, count: nat) returns (r: Parsed)
    requires |value| >= HEADER && value[..4] == Put32(VERSION) && CountOf(|value|) == Some(count) && count > 0
    ensures r.Acl? ==> r.entries != [] && Regular(r.entries) && Image(r.entries) == value
    ensures r.Acl? ==> forall es :: Regular(es) && Image(es) == value ==> es == r.entries
    ensures r.Invalid? ==> forall es :: Regular(es) ==> Image(es) != value
    ensures !r.NoAcl? && value != Put32(VERSION)
  {
    var n: nat, at: nat, es := 0, HEADER, [];
    LongerValue(value, count);
    while n < count
      invariant n <= count && at <= |value| && |es| == n && AllOk(es) && Image(es) == value[..at]
    {
      var step := ReadEntry(value, at);
      if step.Stop? {
        Stuck(value, at, es, count);
        return Invalid;
      }
      var len := |Encode(step.e)|;
      OneEntryMore(value, at, es, step.e);
      es, at, n := es + [step.e], at + len, n + 1;
    }
    r := Finish(value, at, es);
  }

  /** if (value != end) goto fail. */
  method Finish(value: seq<Byte>, at: nat, es: seq<Entry>) returns (r: Parsed)
    requires |value| >= HEADER && CountOf(|value|) == Some(|es|) && es != []
    requires AllOk(es) && at <= |value| && Image(es) == value[..at]
    ensures r.Acl? ==> r.entries == es && Regular(es) && Image(es) == value
    ensures r.Acl? ==> forall fs :: Regular(fs) && Image(fs) == value ==> fs == es
    ensures r.Invalid? ==> forall fs :: Regular(fs) ==> Image(fs) != value
    ensures !r.NoAcl?
  {
    if at != |value| {
      TooShort(value, at, es);
      return Invalid;
    }
    assert value[..at] == value;
    CountExactly(|value|, |es|);
    SizeExactly(es);
    OnlyList(es, value);
    r := Acl(es);
  }

  lemma OneEntryMore(value: seq<Byte>, at: nat, es: seq<Entry>, e: Entry)
    requires at <= |value| && AllOk(es) && Image(es) == value[..at] && EntryOk(e)
    requires at + |Encode(e)| <= |value| && value[at..at + |Encode(e)|] == Encode(e)
    ensures AllOk(es + [e]) && Image(es + [e]) == value[..at + |Encode(e)|]
  {
    var len := |Encode(e)|;
    assert (es + [e])[..|es|] == es;
    assert value[..at + len] == value[..at] + value[at..at + len];
  }

  lemma LongerValue(value: seq<Byte>, n: nat)
    requires |value| >= HEADER && CountOf(|value|) == Some(n) && n > 0
    ensures value != Put32(VERSION)
  {
    CountExactly(|value|, n);
  }

  lemma BadHeader(value: seq<Byte>)
    requires |value| < HEADER || Get32(value, 0) != VERSION
    ensures value != Put32(VERSION) && forall es :: Regular(es) ==> Image(es) != value
  {
    forall es | AllOk(es) ensures Image(es) != value {
      if Image(es) == value {
        assert value[0..4] == Put32(VERSION);
        Put32Injective(Get32(value, 0), VERSION);
      }
    }
    assert EncodeAll([]) == [] && Image([]) == Put32(VERSION) && AllOk([]);
  }

  lemma NoCount(value: seq<Byte>)
    requires |value| >= HEADER && CountOf(|value|).None?
    ensures value != Put32(VERSION) && forall es :: Regular(es) ==> Image(es) != value
  {
    forall es | Regular(es) ensures Image(es) != value {
      SizeExactly(es);
      CountExactly(|value|, |es|);
    }
  }

  /** The images of regular lists of this size have as many entries. */
  lemma SameCount(value: seq<Byte>, n: nat, fs: seq<Entry>)
    requires |value| >= HEADER && CountOf(|value|) == Some(n) && Regular(fs) && Image(fs) == value
    ensures |fs| == n
  {
    SizeExactly(fs);
    CountExactly(|value|, |fs|);
  }

  lemma ImageTail(es: seq<Entry>, fs: seq<Entry>, value: seq<Byte>, at: nat)
    requires AllOk(es) && AllOk(fs) && at <= |value| && Image(es) == value[..at] && Image(fs) == value && |es| <= |fs|
    ensures fs[..|es|] == es && EncodeAll(es) <= EncodeAll(fs)
  {
    assert Image(es)[4..] == EncodeAll(es) && Image(fs)[4..] == EncodeAll(fs);
    assert value[..at][4..] == value[4..][..at - 4];
    FrontUnique(es, fs, |es|);
    assert es[..|es|] == es;
  }

  lemma Stuck(value: seq<Byte>, at: nat, es: seq<Entry>, n: nat)
    requires |value| >= HEADER && CountOf(|value|) == Some(n) && |es| < n && at <= |value|
    requires AllOk(es) && Image(es) == value[..at]
    requires forall e :: EntryOk(e) ==> !(Encode(e) <= value[at..])
    ensures forall fs :: Regular(fs) ==> Image(fs) != value
  {
    forall fs | Regular(fs) ensures Image(fs) != value {
      if Image(fs) == value {
        SameCount(value, n, fs);
        ImageTail(es, fs, value, at);
        PrefixEncodes(fs, |es| + 1);
        NextEncodes(value, at, es, fs);
      }
    }
  }

  lemma NextEncodes(value: seq<Byte>, at: nat, es: seq<Entry>, fs: seq<Entry>)
    requires AllOk(es) && AllOk(fs) && |es| < |fs| && at <= |value| && Image(es) == value[..at] && Image(fs) == value
    requires EncodeAll(es) + Encode(fs[|es|]) <= EncodeAll(fs)
    ensures Encode(fs[|es|]) <= value[at..]
  {
    var e := Encode(fs[|es|]);
    assert |Image(es)| == at;
    forall i | 0 <= i < |e| ensures at + i < |value| && value[at + i] == e[i] {
      assert (EncodeAll(es) + e)[at - 4 + i] == EncodeAll(fs)[at - 4 + i];
    }
  }

  lemma WholeImage(es: seq<Entry>, fs: seq<Entry>, value: seq<Byte>, at: nat)
    requires AllOk(es) && AllOk(fs) && at <= |value| && Image(es) == value[..at] && Image(fs) == value && |es| == |fs|
    ensures at == |value|
  {
    ImageTail(es, fs, value, at);
    assert fs[..|es|] == fs;
  }

  lemma TooShort(value: seq<Byte>, at: nat, es: seq<Entry>)
    requires |value| >= HEADER && CountOf(|value|) == Some(|es|) && at < |value| && AllOk(es)
    requires Image(es) == value[..at]
    ensures value != Put32(VERSION) && forall fs :: Regular(fs) ==> Image(fs) != value
  {
    forall fs | Regular(fs) ensures Image(fs) != value {
      if Image(fs) == value {
        SameCount(value, |es|, fs);
        WholeImage(es, fs, value, at);
      }
    }
    ImageSize(es);
  }
}
