/**
 * DOS 8.3 short names: SdFile::make83Name turns one path component into the
 * 11-byte, blank-padded name field of a directory entry, and SdFile::dirName
 * turns a name field back into "BASE.EXT" text.
 */
module ShortName {
  import opened Bytes

  const NUL: byte := 0x00
  const BLANK: byte := 0x20
  const DOT: byte := 0x2E
  const SLASH: byte := 0x2F

  /** Bytes make83Name refuses outright: | < > ^ + = ? / [ ] ; , * " \ */
  const ILLEGAL: set<byte> := {0x7C, 0x3C, 0x3E, 0x5E, 0x2B, 0x3D, 0x3F, 0x2F, 0x5B, 0x5D, 0x3B, 0x2C, 0x2A, 0x22, 0x5C}

  /** A byte allowed in a base or an extension: printable ASCII and not refused. */
  predicate Legal(c: byte) {
    0x21 <= c <= 0x7E && c !in ILLEGAL
  }

  /** Lower-case ASCII letters become upper case; everything else is kept. */
  function Upper(c: byte): byte {
    if 0x61 <= c <= 0x7A then c - 0x20 else c
  }

  function UpperAll(s: seq<byte>): (r: seq<byte>)
    ensures |r| == |s| && forall k :: 0 <= k < |s| ==> r[k] == Upper(s[k])
  {
    seq(|s|, k requires 0 <= k < |s| => Upper(s[k]))
  }

  function Blanks(n: nat): (r: seq<byte>)
    ensures |r| == n && forall k :: 0 <= k < n ==> r[k] == BLANK
  {
    seq(n, k => BLANK)
  }

  /** s blank-filled on the right to width w. */
  function Pad(s: seq<byte>, w: nat): (r: seq<byte>)
    requires |s| <= w
    ensures |r| == w && r[..|s|] == s
    ensures forall k :: |s| <= k < w ==> r[k] == BLANK
  {
    s + Blanks(w - |s|)
  }

  /** Index at which make83Name stops consuming: the first NUL or '/', or the end. */
  function Stop(str: seq<byte>): (k: nat)
    ensures k <= |str|
    ensures k < |str| ==> str[k] == NUL || str[k] == SLASH
  {
    StopFrom(str, 0)
  }

  /** The first NUL or '/' at or after index j, or the end. */
  function StopFrom(str: seq<byte>, j: nat): (k: nat)
    requires j <= |str|
    ensures j <= k <= |str|
    ensures k < |str| ==> str[k] == NUL || str[k] == SLASH
    decreases |str| - j
  {
    if j == |str| || str[j] == NUL || str[j] == SLASH then j else StopFrom(str, j + 1)
  }

  lemma StopAhead(str: seq<byte>, k: nat)
    requires k <= Stop(str) && k < |str| && str[k] != NUL && str[k] != SLASH
    ensures k < Stop(str)
  {
  }

  lemma StopAt(str: seq<byte>, k: nat)
    requires k <= Stop(str) && (k == |str| || str[k] == NUL || str[k] == SLASH)
    ensures k == Stop(str) && str[..k] == Component(str)
  {
    if k < Stop(str) {
      StopBefore(str, 0, k);
    }
  }

  /** Every byte between j and the stop is neither NUL nor '/'. */
  lemma {:induction false} StopBefore(str: seq<byte>, j: nat, t: nat)
    requires j <= t < |str| && t < StopFrom(str, j)
    ensures str[t] != NUL && str[t] != SLASH
    decreases |str| - j
  {
    if t > j {
      StopBefore(str, j + 1, t);
    }
  }

  /** The path component make83Name reads. */
  function Component(str: seq<byte>): seq<byte> {
    str[..Stop(str)]
  }

  /** Position of the first '.', if any. */
  function DotAt(q: seq<byte>): (r: Option<nat>)
    ensures r.Some? ==> r.value < |q| && q[r.value] == DOT && forall t :: 0 <= t < r.value ==> q[t] != DOT
    ensures r.None? ==> forall t :: 0 <= t < |q| ==> q[t] != DOT
  {
    DotFrom(q, 0)
  }

  /** Position of the first '.' at or after index j, if any. */
  function DotFrom(q: seq<byte>, j: nat): (r: Option<nat>)
    requires j <= |q|
    ensures r.Some? ==> j <= r.value < |q| && q[r.value] == DOT && forall t :: j <= t < r.value ==> q[t] != DOT
    ensures r.None? ==> forall t :: j <= t < |q| ==> q[t] != DOT
    decreases |q| - j
  {
    if j == |q| then None else if q[j] == DOT then Some(j) else DotFrom(q, j + 1)
  }

  /** DotAt finds exactly the first dot. */
  lemma DotAtFirst(q: seq<byte>, d: nat)
    requires d < |q| && q[d] == DOT && forall t :: 0 <= t < d ==> q[t] != DOT
    ensures DotAt(q) == Some(d)
  {
  }

  lemma DotAtNone(q: seq<byte>)
    requires DOT !in q
    ensures DotAt(q) == None
  {
  }

  /** The part before the first dot (all of q when there is none). */
  function Base(q: seq<byte>): seq<byte> {
    match DotAt(q) {
      case None => q
      case Some(d) => q[..d]
    }
  }

  /** The part after the first dot (empty when there is none). */
  function Ext(q: seq<byte>): seq<byte> {
    match DotAt(q) {
      case None => []
      case Some(d) => q[d + 1..]
    }
  }

  /**
   * What make83Name lets through while consuming q: at most one dot, only legal
   * bytes besides it, a base of at most 8 and an extension of at most 3 bytes.
   */
  predicate PrefixOk(q: seq<byte>) {
    DOT !in Ext(q) && AllLegal(q) && |Base(q)| <= 8 && |Ext(q)| <= 3
  }

  /** A valid 8.3 component: as above, and the base is not empty. */
  predicate Valid83(q: seq<byte>) {
    PrefixOk(q) && |Base(q)| >= 1
  }

  /** The 11-byte name field for q: upper-cased base and extension, each blank-filled. */
  function Format83(q: seq<byte>): (r: seq<byte>)
    requires PrefixOk(q)
    ensures |r| == 11
  {
    Field(Base(q), Ext(q))
  }

  /**
   * Models make83Name: blank-fills the 11 bytes of name, copies the component
   * (upper-cased) into the base or, after the dot, the extension, and stops at
   * NUL or '/'. Succeeds exactly for a valid 8.3 component; on success name
   * holds its formatted field and rest is where the scan stopped.
   */
  method Make83Name(str: seq<byte>, name: array<byte>) returns (ok: bool, rest: nat)
    requires name.Length == 11
    modifies name
    ensures ok <==> Valid83(Component(str))
    ensures ok ==> name[..] == Format83(Component(str)) && rest == Stop(str)
  {
    BlankFill(name);
    var n := 7;
    var i := 0;
    var k := 0;
    ghost var p := Component(str);
    ghost var base: seq<byte> := [];
    ghost var dot := false;
    ghost var ext: seq<byte> := [];
    ScanStart(p);
    while k < |str| && str[k] != NUL && str[k] != SLASH
      invariant Scanned(p, k, base, dot, ext, n, i, name[..])
    {
      ComponentAhead(str, k);
      var c := str[k];
      if c == DOT {
        if n == 10 {
          ScanSecondDot(p, k, base, ext);
          return false, 0;
        }
        ScanDot(p, k, base, dot, ext, n, i, name[..]);
        dot := true;
        n := 10;
        i := 8;
      } else {
        var bad := IsIllegal(c);
        if bad || i > n || c < 0x21 || c > 0x7E {
          ScanRefuse(p, k, base, dot, ext);
          return false, 0;
        }
        ghost var before := name[..];
        ScanChar(p, k, base, dot, ext, n, i, before);
        name[i] := Upper(c);
        assert name[..] == before[i := Upper(c)];
        if dot {
          ext := ext + [c];
        } else {
          base := base + [c];
        }
        i := i + 1;
      }
      k := k + 1;
    }
    ComponentEnd(str, k);
    ScanEnd(p, k, base, dot, ext, n, i, name[..]);
    rest := k;
    ok := name[0] != BLANK;
  }

  /** While the scan goes on, it reads the component. */
  lemma ComponentAhead(str: seq<byte>, k: nat)
    requires k <= |Component(str)| && k < |str| && str[k] != NUL && str[k] != SLASH
    ensures k < |Component(str)| && Component(str)[k] == str[k]
  {
    StopAhead(str, k);
  }

  /** When the scan stops, it has read the whole component. */
  lemma ComponentEnd(str: seq<byte>, k: nat)
    requires k <= |Component(str)| && (k == |str| || str[k] == NUL || str[k] == SLASH)
    ensures k == |Component(str)| == Stop(str)
  {
    StopAt(str, k);
  }

  /**
   * The state of make83Name's scan after k bytes of the component p: they
   * form base, a dot when dot holds, and ext; field is the name field so far;
   * i is the next index written and n the last index of the part being filled.
   */
  ghost predicate Scanned(p: seq<byte>, k: nat, base: seq<byte>, dot: bool, ext: seq<byte>,
                          n: int, i: int, field: seq<byte>)
  {
    k <= |p| && p[..k] == Join(base, dot, ext) && Parts(base, dot, ext)
    && field == Field(base, ext)
    && n == (if dot then 10 else 7) && i == (if dot then 8 + |ext| else |base|)
  }

  lemma ScanStart(p: seq<byte>)
    ensures Scanned(p, 0, [], false, [], 7, 0, Blanks(11))
  {
    assert Field([], []) == Blanks(11);
  }

  /** The first dot: the scan moves on to the extension, the field is unchanged. */
  lemma ScanDot(p: seq<byte>, k: nat, base: seq<byte>, dot: bool, ext: seq<byte>,
                n: int, i: int, field: seq<byte>)
    requires Scanned(p, k, base, dot, ext, n, i, field)
    requires k < |p| && p[k] == DOT && n != 10
    ensures Scanned(p, k + 1, base, true, ext, 10, 8, field)
  {
    assert p[..k + 1] == Join(base, dot, ext) + [DOT];
    JoinAppend(base, dot, ext, DOT);
  }

  /** A second dot: the component is not a valid 8.3 name. */
  lemma ScanSecondDot(p: seq<byte>, k: nat, base: seq<byte>, ext: seq<byte>)
    requires k < |p| && p[k] == DOT
    requires p[..k] == Join(base, true, ext) && Parts(base, true, ext)
    ensures !Valid83(p)
  {
    var q := p[..k + 1];
    assert q == Join(base, true, ext + [DOT]);
    JoinSplit(base, true, ext + [DOT]);
    assert DOT in Ext(q);
    PrefixFail(p, k + 1);
  }

  /** A byte make83Name's tests reject: the component is not a valid 8.3 name. */
  lemma ScanRefuse(p: seq<byte>, k: nat, base: seq<byte>, dot: bool, ext: seq<byte>)
    requires k < |p| && p[k] != DOT
    requires p[..k] == Join(base, dot, ext) && Parts(base, dot, ext)
    requires p[k] in ILLEGAL || p[k] < 0x21 || p[k] > 0x7E || (if dot then |ext| >= 3 else |base| >= 8)
    ensures !Valid83(p)
  {
    var c := p[k];
    assert p[..k + 1] == Join(base, dot, ext) + [c];
    Refuse(base, dot, ext, c);
    PrefixFail(p, k + 1);
  }

  /** An accepted byte: it is stored, upper-cased, at index i. */
  lemma ScanChar(p: seq<byte>, k: nat, base: seq<byte>, dot: bool, ext: seq<byte>,
                 n: int, i: int, field: seq<byte>)
    requires Scanned(p, k, base, dot, ext, n, i, field)
    requires k < |p| && p[k] != DOT
    requires !(p[k] in ILLEGAL || i > n || p[k] < 0x21 || p[k] > 0x7E)
    ensures 0 <= i < 11
    ensures Scanned(p, k + 1, if dot then base else base + [p[k]], dot,
                    if dot then ext + [p[k]] else ext, n, i + 1, field[i := Upper(p[k])])
  {
    var c := p[k];
    assert p[..k + 1] == Join(base, dot, ext) + [c];
    JoinAppend(base, dot, ext, c);
    AllLegalAppend(if dot then ext else base, c);
    if dot {
      FieldExt(base, ext, c);
    } else {
      FieldBase(base, c);
    }
  }

  /** The scan read the whole component: the result is whether the base is non-empty. */
  lemma ScanEnd(p: seq<byte>, k: nat, base: seq<byte>, dot: bool, ext: seq<byte>,
                n: int, i: int, field: seq<byte>)
    requires Scanned(p, k, base, dot, ext, n, i, field) && k == |p|
    ensures field[0] != BLANK <==> Valid83(p)
    ensures field[0] != BLANK ==> field == Format83(p)
  {
    assert p[..k] == p;
    JoinParts(base, dot, ext);
    FirstByte(base, ext);
  }

  /** make83Name's first loop: every byte of the field becomes a blank. */
  method BlankFill(name: array<byte>)
    modifies name
    ensures name[..] == Blanks(name.Length)
  {
    var i := 0;
    while i < name.Length
      invariant 0 <= i <= name.Length
      invariant forall k :: 0 <= k < i ==> name[k] == BLANK
    {
      name[i] := BLANK;
      i := i + 1;
    }
  }

  /** The refused bytes in the order make83Name's table lists them. */
  const ILLEGAL_TABLE: seq<byte> := [0x7C, 0x3C, 0x3E, 0x5E, 0x2B, 0x3D, 0x3F, 0x2F, 0x5B, 0x5D, 0x3B, 0x2C, 0x2A, 0x22, 0x5C]

  /** make83Name's inner loop: scans the table of refused bytes for c. */
  method IsIllegal(c: byte) returns (bad: bool)
    ensures bad <==> c in ILLEGAL
  {
    var j := 0;
    while j < |ILLEGAL_TABLE|
      invariant 0 <= j <= |ILLEGAL_TABLE|
      invariant c !in ILLEGAL_TABLE[..j]
    {
      if ILLEGAL_TABLE[j] == c {
        return true;
      }
      j := j + 1;
    }
    assert ILLEGAL_TABLE[..j] == ILLEGAL_TABLE;
    return false;
  }

  /** The consumed text, from the base, whether a dot was seen, and the extension. */
  function Join(base: seq<byte>, dot: bool, ext: seq<byte>): (q: seq<byte>)
    ensures !dot ==> q == base + ext
  {
    if dot then base + [DOT] + ext else base + ext
  }

  /** Consuming c extends the extension after a dot, the base before it, or starts the extension. */
  lemma JoinAppend(base: seq<byte>, dot: bool, ext: seq<byte>, c: byte)
    requires !dot ==> ext == []
    ensures dot ==> Join(base, dot, ext) + [c] == Join(base, true, ext + [c])
    ensures !dot && c == DOT ==> Join(base, dot, ext) + [c] == Join(base, true, [])
    ensures !dot && c != DOT ==> Join(base, dot, ext) + [c] == Join(base + [c], false, [])
  {
  }

  /** What make83Name keeps while it accepts: dot-free legal parts within 8 and 3 bytes. */
  predicate Parts(base: seq<byte>, dot: bool, ext: seq<byte>) {
    DOT !in base && DOT !in ext && AllLegal(base) && AllLegal(ext)
    && |base| <= 8 && |ext| <= 3 && (!dot ==> ext == [])
  }

  /** The name field built from a base and an extension. */
  function Field(base: seq<byte>, ext: seq<byte>): (r: seq<byte>)
    requires |base| <= 8 && |ext| <= 3
    ensures |r| == 11
  {
    Pad(UpperAll(base), 8) + Pad(UpperAll(ext), 3)
  }

  /** The parts of a joined component are its Base and Ext. */
  lemma JoinSplit(base: seq<byte>, dot: bool, ext: seq<byte>)
    requires DOT !in base && (!dot ==> ext == [])
    ensures DotAt(Join(base, dot, ext)).Some? == dot
    ensures Base(Join(base, dot, ext)) == base && Ext(Join(base, dot, ext)) == ext
    ensures AllLegal(Join(base, dot, ext)) <==> AllLegal(base) && AllLegal(ext)
  {
    var q := Join(base, dot, ext);
    DotAtConcat(base, if dot then [DOT] + ext else []);
    if dot {
      assert q == base + ([DOT] + ext);
      assert q[..|base|] == base && q[|base| + 1..] == ext;
      AllLegalConcat(base + [DOT], ext);
      AllLegalConcat(base, [DOT]);
    } else {
      assert q == base;
    }
  }

  /** The loop's parts describe an acceptable prefix, and its field is Format83's. */
  lemma JoinParts(base: seq<byte>, dot: bool, ext: seq<byte>)
    requires Parts(base, dot, ext)
    ensures PrefixOk(Join(base, dot, ext)) && Format83(Join(base, dot, ext)) == Field(base, ext)
    ensures |Base(Join(base, dot, ext))| == |base|
  {
    JoinSplit(base, dot, ext);
  }

  lemma DotAtConcat(a: seq<byte>, b: seq<byte>)
    requires DOT !in a
    ensures DotAt(a + b) == match DotAt(b) { case None => None case Some(d) => Some(|a| + d) }
  {
    var q := a + b;
    match DotAt(b) {
      case None =>
        assert DOT !in q by {
          forall t | 0 <= t < |q| ensures q[t] != DOT {
            if t < |a| { assert q[t] == a[t]; } else { assert q[t] == b[t - |a|]; }
          }
        }
        DotAtNone(q);
      case Some(d) =>
        forall t | 0 <= t < |a| + d ensures q[t] != DOT {
          if t < |a| { assert q[t] == a[t]; } else { assert q[t] == b[t - |a|]; }
        }
        DotAtFirst(q, |a| + d);
    }
  }

  lemma {:induction false} AllLegalConcat(a: seq<byte>, b: seq<byte>)
    ensures AllLegal(a + b) <==> AllLegal(a) && AllLegal(b)
  {
    var r := a + b;
    if AllLegal(a) && AllLegal(b) {
      forall k | 0 <= k < |r| && r[k] != DOT ensures Legal(r[k]) {
        if k < |a| { assert r[k] == a[k]; } else { assert r[k] == b[k - |a|]; }
      }
    }
    if AllLegal(r) {
      forall k | 0 <= k < |a| && a[k] != DOT ensures Legal(a[k]) {
        assert r[k] == a[k];
      }
      forall k | 0 <= k < |b| && b[k] != DOT ensures Legal(b[k]) {
        assert r[|a| + k] == b[k];
      }
    }
  }

  /** A byte other than '.' that make83Name's tests reject makes the prefix unacceptable. */
  lemma Refuse(base: seq<byte>, dot: bool, ext: seq<byte>, c: byte)
    requires Parts(base, dot, ext) && c != DOT
    requires c in ILLEGAL || c < 0x21 || c > 0x7E || (if dot then 8 + |ext| > 10 else |base| > 7)
    ensures !PrefixOk(Join(base, dot, ext) + [c])
  {
    if dot {
      assert Join(base, dot, ext) + [c] == Join(base, true, ext + [c]);
      JoinSplit(base, true, ext + [c]);
      AllLegalAppend(ext, c);
    } else {
      assert Join(base, dot, ext) + [c] == Join(base + [c], false, []);
      JoinSplit(base + [c], false, []);
      AllLegalAppend(base, c);
    }
  }

  /** One more base byte lands at its index in the field. */
  lemma FieldBase(base: seq<byte>, c: byte)
    requires |base| < 8
    ensures Field(base + [c], []) == Field(base, [])[|base| := Upper(c)]
  {
    assert UpperAll(base + [c]) == UpperAll(base) + [Upper(c)];
    PadAppend(UpperAll(base), Upper(c), 8);
    UpdateConcat(Pad(UpperAll(base), 8), Pad(UpperAll([]), 3), |base|, Upper(c));
  }

  /** One more extension byte lands at its index in the field. */
  lemma FieldExt(base: seq<byte>, ext: seq<byte>, c: byte)
    requires |base| <= 8 && |ext| < 3
    ensures Field(base, ext + [c]) == Field(base, ext)[8 + |ext| := Upper(c)]
  {
    assert UpperAll(ext + [c]) == UpperAll(ext) + [Upper(c)];
    PadAppend(UpperAll(ext), Upper(c), 3);
    UpdateConcat2(Pad(UpperAll(base), 8), Pad(UpperAll(ext), 3), |ext|, Upper(c));
  }

  /** The first field byte is blank exactly when the base is empty. */
  lemma FirstByte(base: seq<byte>, ext: seq<byte>)
    requires |base| <= 8 && |ext| <= 3 && AllLegal(base) && DOT !in base
    ensures Field(base, ext)[0] == BLANK <==> base == []
  {
    if base != [] {
      assert Field(base, ext)[0] == Upper(base[0]);
      assert Legal(base[0]);
    }
  }

  /** The legality part of PrefixOk, one byte further. */
  predicate AllLegal(q: seq<byte>) {
    forall k :: 0 <= k < |q| && q[k] != DOT ==> Legal(q[k])
  }

  lemma AllLegalAppend(q: seq<byte>, c: byte)
    requires c != DOT
    ensures AllLegal(q + [c]) <==> AllLegal(q) && Legal(c)
  {
    var r := q + [c];
    assert r[|q|] == c;
    if AllLegal(q) && Legal(c) {
      forall k | 0 <= k < |r| && r[k] != DOT ensures Legal(r[k]) {
        if k < |q| { assert r[k] == q[k]; }
      }
    }
    if AllLegal(r) {
      forall k | 0 <= k < |q| && q[k] != DOT ensures Legal(q[k]) {
        assert r[k] == q[k];
      }
    }
  }

  lemma PadAppend(s: seq<byte>, x: byte, w: nat)
    requires |s| < w
    ensures Pad(s + [x], w) == Pad(s, w)[|s| := x]
  {
  }

  lemma UpdateConcat(a: seq<byte>, b: seq<byte>, i: nat, x: byte)
    requires i < |a|
    ensures a[i := x] + b == (a + b)[i := x]
  {
  }

  lemma UpdateConcat2(a: seq<byte>, b: seq<byte>, i: nat, x: byte)
    requires i < |b|
    ensures a + b[i := x] == (a + b)[|a| + i := x]
  {
  }

  /** A component whose consumed prefix is refused is itself refused. */
  lemma PrefixFail(p: seq<byte>, k: nat)
    requires k <= |p| && !PrefixOk(p[..k])
    ensures !Valid83(p)
  {
    if Valid83(p) {
      PrefixOkClosed(p, k);
    }
  }

  /** Every prefix of an acceptable component is acceptable. */
  lemma PrefixOkClosed(p: seq<byte>, k: nat)
    requires k <= |p| && PrefixOk(p)
    ensures PrefixOk(p[..k])
  {
    var b, dot, e := Base(p), DotAt(p).Some?, Ext(p);
    PartsOf(p);
    if k <= |b| {
      assert p[..k] == b[..k];
      PartsPrefix(b, false, [], k, 0);
      JoinParts(b[..k], false, []);
    } else {
      var j := k - |b| - 1;
      assert p[..k] == Join(b, true, e[..j]);
      PartsPrefix(b, true, e, |b|, j);
      JoinParts(b, true, e[..j]);
    }
  }

  /** An acceptable component splits into acceptable parts. */
  lemma PartsOf(p: seq<byte>)
    requires PrefixOk(p)
    ensures Parts(Base(p), DotAt(p).Some?, Ext(p)) && p == Join(Base(p), DotAt(p).Some?, Ext(p))
  {
    SplitJoin(p);
    var b := Base(p);
    assert DOT !in b;
    JoinSplit(b, DotAt(p).Some?, Ext(p));
  }

  /** Shortening the base (without a dot) or the extension keeps the parts acceptable. */
  lemma PartsPrefix(b: seq<byte>, dot: bool, e: seq<byte>, kb: nat, ke: nat)
    requires Parts(b, dot, e) && kb <= |b| && ke <= |e|
    ensures Parts(b[..kb], false, []) && Parts(b, dot, e[..ke])
  {
    AllLegalConcat(b[..kb], b[kb..]);
    assert b == b[..kb] + b[kb..];
    AllLegalConcat(e[..ke], e[ke..]);
    assert e == e[..ke] + e[ke..];
    assert DOT !in b[..kb];
    assert DOT !in e[..ke];
  }

  /** Drop the blanks of a name fragment. */
  function NonBlank(s: seq<byte>): (r: seq<byte>)
    ensures |r| <= |s|
    ensures BLANK !in r
  {
    if s == [] then [] else (if s[0] == BLANK then [] else [s[0]]) + NonBlank(s[1..])
  }

  /**
   * The text dirName produces from an 11-byte name field (without its NUL):
   * the non-blank base bytes, a '.' when the first extension byte is not
   * blank, then the non-blank extension bytes.
   */
  function DirNameText(n: seq<byte>): (r: seq<byte>)
    requires |n| == 11
    ensures |r| <= 12
  {
    NonBlank(n[..8]) + (if n[8] != BLANK then [DOT] else []) + NonBlank(n[8..])
  }

  lemma NonBlankAppend(s: seq<byte>, c: byte)
    ensures NonBlank(s + [c]) == NonBlank(s) + (if c == BLANK then [] else [c])
  {
    if s != [] {
      assert (s + [c])[1..] == s[1..] + [c];
      NonBlankAppend(s[1..], c);
    }
  }

  /**
   * Models dirName: copies the name field into name, skipping blanks and
   * inserting '.' before a non-blank byte 8, then NUL-terminates.
   */
  method DirName(field: seq<byte>, name: array<byte>) returns (len: nat)
    requires |field| == 11 && name.Length >= 13
    modifies name
    ensures len == |DirNameText(field)|
    ensures name[..len] == DirNameText(field) && name[len] == NUL
  {
    var j := 0;
    var i := 0;
    while i < 11
      invariant 0 <= i <= 11 && j == |Written(field, i)|
      invariant name[..j] == Written(field, i)
    {
      ghost var out := name[..j];
      if field[i] == BLANK {
        WrittenStep(field, i);
      } else {
        WrittenStep(field, i);
        if i == 8 {
          name[j] := DOT;
          j := j + 1;
          assert name[..j] == out + [DOT];
          out := name[..j];
        }
        name[j] := field[i];
        j := j + 1;
        assert name[..j] == out + [field[i]];
      }
      i := i + 1;
    }
    WrittenAll(field);
    name[j] := NUL;
    len := j;
  }

  /** What dirName has written after looking at the first i bytes of the field. */
  function Written(field: seq<byte>, i: nat): (r: seq<byte>)
    requires |field| == 11 && i <= 11
    ensures |r| <= i + (if i > 8 then 1 else 0)
  {
    if i <= 8 then NonBlank(field[..i])
    else NonBlank(field[..8]) + (if field[8] != BLANK then [DOT] else []) + NonBlank(field[8..i])
  }

  lemma WrittenStep(field: seq<byte>, i: nat)
    requires |field| == 11 && i < 11
    ensures Written(field, i + 1) ==
      Written(field, i) + (if field[i] == BLANK then [] else if i == 8 then [DOT, field[i]] else [field[i]])
  {
    if i < 8 {
      assert field[..i + 1] == field[..i] + [field[i]];
      NonBlankAppend(field[..i], field[i]);
    } else if i == 8 {
      assert field[..8] == field[..i];
      assert field[8..9] == [field[8]];
    } else {
      assert field[8..i + 1] == field[8..i] + [field[i]];
      NonBlankAppend(field[8..i], field[i]);
    }
  }

  lemma WrittenAll(field: seq<byte>)
    requires |field| == 11
    ensures Written(field, 11) == DirNameText(field)
  {
    assert field[8..11] == field[8..];
  }

  lemma {:induction false} NonBlankPad(s: seq<byte>, w: nat)
    requires |s| <= w && BLANK !in s
    ensures NonBlank(Pad(s, w)) == s
    decreases w
  {
    if s == [] {
      NonBlankBlanks(w);
    } else {
      assert Pad(s, w)[1..] == Pad(s[1..], w - 1);
      NonBlankPad(s[1..], w - 1);
    }
  }

  lemma {:induction false} NonBlankBlanks(n: nat)
    ensures NonBlank(Blanks(n)) == []
  {
    if n > 0 {
      assert Blanks(n)[1..] == Blanks(n - 1);
      NonBlankBlanks(n - 1);
    }
  }

  /** No lower-case letters: make83Name leaves such text unchanged. */
  predicate NoLower(q: seq<byte>) {
    forall k :: 0 <= k < |q| ==> !(0x61 <= q[k] <= 0x7A)
  }

  /**
   * Round trip: for a valid upper-case component that does not end in a bare
   * dot, dirName of make83Name's field gives back the component.
   */
  lemma DirNameOfFormat(q: seq<byte>)
    requires Valid83(q) && NoLower(q)
    requires DotAt(q).Some? ==> |Ext(q)| >= 1
    ensures DirNameText(Format83(q)) == q
  {
    var b, e := Base(q), Ext(q);
    UpperAllId(q, b, e);
    SplitJoin(q);
    DirNameOfParts(b, e);
  }

  /** Every component is the join of its own Base and Ext. */
  lemma SplitJoin(q: seq<byte>)
    ensures q == Join(Base(q), DotAt(q).Some?, Ext(q))
  {
    match DotAt(q) {
      case None =>
      case Some(d) => assert q == q[..d] + [DOT] + q[d + 1..];
    }
  }

  /** dirName of a field made from blank-free parts gives "BASE.EXT", or "BASE" without an extension. */
  lemma DirNameOfParts(b: seq<byte>, e: seq<byte>)
    requires |b| <= 8 && |e| <= 3 && BLANK !in b && BLANK !in e
    ensures DirNameText(Pad(b, 8) + Pad(e, 3)) == b + (if e == [] then [] else [DOT]) + e
  {
    var f := Pad(b, 8) + Pad(e, 3);
    assert f[..8] == Pad(b, 8);
    assert f[8..] == Pad(e, 3);
    NonBlankPad(b, 8);
    NonBlankPad(e, 3);
    if e == [] {
      assert f[8] == BLANK;
    } else {
      assert f[8] == e[0];
    }
  }

  lemma UpperAllId(q: seq<byte>, b: seq<byte>, e: seq<byte>)
    requires Valid83(q) && NoLower(q) && b == Base(q) && e == Ext(q)
    ensures UpperAll(b) == b && UpperAll(e) == e
    ensures BLANK !in b && BLANK !in e
  {
    match DotAt(q) {
      case None =>
        assert forall k :: 0 <= k < |b| ==> b[k] == q[k];
      case Some(d) =>
        assert forall k :: 0 <= k < |b| ==> b[k] == q[k];
        assert forall k :: 0 <= k < |e| ==> e[k] == q[d + 1 + k];
    }
  }
}
