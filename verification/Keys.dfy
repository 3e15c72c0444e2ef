/** Store keys: path-segment percent-encoding (section 2.1 of RFC 3986, as
    url.PathEscape applies it), the registry's key shapes, and the exactness of
    prefix listings over them. */
module Keys {
  import Decimal
  import opened Optional

  predicate IsByte(c: char) { c <= '\U{FF}' }

  /** Every Go string satisfies this: one char per byte. */
  predicate IsBytes(s: string)
  {
    forall i :: 0 <= i < |s| ==> IsByte(s[i])
  }

  // --- percent-encoding of one path segment

  predicate Unescaped(c: char)
  {
    'a' <= c <= 'z' || 'A' <= c <= 'Z' || '0' <= c <= '9' ||
    c in "-_.~$&+:=@"
  }

  function HexDigit(d: nat): char
    requires d < 16
  {
    if d < 10 then '0' + (d as char) else 'A' + ((d - 10) as char)
  }

  function HexValue(c: char): Option<nat>
  {
    if '0' <= c <= '9' then Some(c as int - '0' as int)
    else if 'A' <= c <= 'F' then Some(c as int - 'A' as int + 10)
    else if 'a' <= c <= 'f' then Some(c as int - 'a' as int + 10)
    else None
  }

  function EscapeByte(c: char): (r: string)
    requires IsByte(c)
    ensures r != [] && '/' !in r
  {
    if Unescaped(c) then [c]
    else ['%', HexDigit(c as int / 16), HexDigit(c as int % 16)]
  }

  function PathEscape(s: string): (r: string)
    requires IsBytes(s)
    ensures '/' !in r
  {
    if s == [] then [] else EscapeByte(s[0]) + PathEscape(s[1..])
  }

  function PathUnescape(s: string): Option<string>
    decreases |s|
  {
    if s == [] then Some([])
    else if s[0] != '%' then
      match PathUnescape(s[1..])
      case None => None
      case Some(rest) => Some([s[0]] + rest)
    else if |s| < 3 || HexValue(s[1]).None? || HexValue(s[2]).None? then None
    else
      match PathUnescape(s[3..])
      case None => None
      case Some(rest) => Some([(16 * HexValue(s[1]).value + HexValue(s[2]).value) as char] + rest)
  }

  lemma UnescapedByte(c: char, rest: string)
    requires IsByte(c) && PathUnescape(rest).Some?
    ensures PathUnescape(EscapeByte(c) + rest) == Some([c] + PathUnescape(rest).value)
  {
    var e := EscapeByte(c);
    if Unescaped(c) {
      assert (e + rest)[1..] == rest;
    } else {
      assert (e + rest)[3..] == rest;
      assert HexValue(HexDigit(c as int / 16)) == Some(c as int / 16);
      assert HexValue(HexDigit(c as int % 16)) == Some(c as int % 16);
    }
  }

  /** Escaping loses nothing. */
  lemma {:induction false} EscapeRoundTrip(s: string)
    requires IsBytes(s)
    ensures PathUnescape(PathEscape(s)) == Some(s)
  {
    if s != [] {
      EscapeRoundTrip(s[1..]);
      UnescapedByte(s[0], PathEscape(s[1..]));
      assert s == [s[0]] + s[1..];
    }
  }

  /** A segment stays as it is exactly when all its bytes are letters, digits or
      one of the marks a path segment may hold; any other byte becomes its
      two-digit code. */
  lemma {:induction false} EscapeKeepsPlain(s: string)
    requires IsBytes(s)
    ensures |PathEscape(s)| >= |s|
    ensures PathEscape(s) == s <==> forall c :: c in s ==>
      'a' <= c <= 'z' || 'A' <= c <= 'Z' || '0' <= c <= '9' || c in "-_.~$&+:=@"
  {
    if s != [] {
      EscapeKeepsPlain(s[1..]);
      assert s == [s[0]] + s[1..];
      assert Unescaped(s[0]) ==> PathEscape(s)[1..] == PathEscape(s[1..]);
    }
  }

  lemma EscapeInjective(a: string, b: string)
    requires IsBytes(a) && IsBytes(b) && PathEscape(a) == PathEscape(b)
    ensures a == b
  {
    EscapeRoundTrip(a);
    EscapeRoundTrip(b);
  }

  // --- slash-joined segments

  predicate Segments(segs: seq<string>)
  {
    segs != [] && forall i :: 0 <= i < |segs| ==> '/' !in segs[i]
  }

  function Join(segs: seq<string>): string
    requires segs != []
  {
    if |segs| == 1 then segs[0] else segs[0] + "/" + Join(segs[1..])
  }

  /** How many chars precede the first slash. */
  function HeadLength(s: string): nat
  {
    if s == [] || s[0] == '/' then 0 else 1 + HeadLength(s[1..])
  }

  lemma {:induction false} HeadLengthOf(head: string, tail: string)
    requires '/' !in head && (tail == [] || tail[0] == '/')
    ensures HeadLength(head + tail) == |head|
  {
    if head == [] {
      assert head + tail == tail;
    } else {
      assert (head + tail)[1..] == head[1..] + tail;
      HeadLengthOf(head[1..], tail);
    }
  }

  /** Where two slash-free heads are each followed by the end of the text or a
      slash, a common text forces the heads to be equal. */
  lemma HeadsAgree(h1: string, t1: string, h2: string, t2: string)
    requires '/' !in h1 && '/' !in h2
    requires t1 == [] || t1[0] == '/'
    requires t2 == [] || t2[0] == '/'
    requires h1 + t1 == h2 + t2
    ensures h1 == h2 && t1 == t2
  {
    HeadLengthOf(h1, t1);
    HeadLengthOf(h2, t2);
    assert h1 == (h1 + t1)[..|h1|] && h2 == (h2 + t2)[..|h2|];
    assert t1 == (h1 + t1)[|h1|..] && t2 == (h2 + t2)[|h2|..];
  }

  function Tail(segs: seq<string>): string
    requires segs != []
  {
    if |segs| == 1 then [] else "/" + Join(segs[1..])
  }

  lemma SlashBetween(head: string, rest: string)
    ensures head + "/" + rest == head + ("/" + rest)
    ensures ("/" + rest)[1..] == rest
  {
  }

  /** A key is its first segment, then nothing or a slash and the rest. */
  lemma JoinSplits(segs: seq<string>)
    requires Segments(segs)
    ensures Join(segs) == segs[0] + Tail(segs)
    ensures |segs| > 1 ==> Segments(segs[1..]) && Tail(segs)[1..] == Join(segs[1..])
  {
    if |segs| == 1 {
      assert segs[0] + [] == segs[0];
    } else {
      SlashBetween(segs[0], Join(segs[1..]));
    }
  }

  lemma SameJoinSameHead(a: seq<string>, b: seq<string>)
    requires Segments(a) && Segments(b) && Join(a) == Join(b)
    ensures a[0] == b[0] && Tail(a) == Tail(b)
  {
    JoinSplits(a);
    JoinSplits(b);
    HeadsAgree(a[0], Tail(a), b[0], Tail(b));
  }

  lemma {:induction false} JoinInjective(a: seq<string>, b: seq<string>)
    requires Segments(a) && Segments(b) && Join(a) == Join(b)
    ensures a == b
  {
    SameJoinSameHead(a, b);
    if |a| > 1 && |b| > 1 {
      JoinSplits(a);
      JoinSplits(b);
      JoinInjective(a[1..], b[1..]);
    }
    assert a == [a[0]] + a[1..] && b == [b[0]] + b[1..];
  }

  lemma {:induction false} DirectoryIsPrefix(dir: seq<string>, key: seq<string>)
    requires Segments(dir) && Segments(key) && dir < key
    ensures Join(dir) + "/" <= Join(key)
  {
    assert dir[0] == key[0];
    if |dir| == 1 {
      assert Join(key) == (dir[0] + "/") + Join(key[1..]);
    } else {
      DirectoryIsPrefix(dir[1..], key[1..]);
      var d, k := Join(dir[1..]) + "/", Join(key[1..]);
      assert Join(dir) + "/" == (dir[0] + "/") + d;
      assert Join(key) == (dir[0] + "/") + k;
    }
  }

  lemma {:induction false} PrefixSplits(dir: seq<string>, key: seq<string>, rest: string)
    requires Segments(dir) && Segments(key)
    requires Join(key) == Join(dir) + "/" + rest
    ensures dir < key
  {
    var kt, dt := Tail(key), Tail(dir) + "/" + rest;
    assert Join(key) == key[0] + kt && Join(key) == dir[0] + dt;
    HeadsAgree(key[0], kt, dir[0], dt);
    assert |key| > 1;
    assert dir == [dir[0]] + dir[1..] && key == [key[0]] + key[1..];
    if |dir| > 1 {
      TailStep(dir, rest);
      assert Join(key[1..]) == kt[1..];
      PrefixSplits(dir[1..], key[1..], rest);
    }
  }

  lemma TailStep(dir: seq<string>, rest: string)
    requires |dir| > 1
    ensures (Tail(dir) + "/" + rest)[1..] == Join(dir[1..]) + "/" + rest
  {
    assert Tail(dir)[1..] == Join(dir[1..]);
  }

  /** A prefix listing under a directory finds exactly the keys below it. */
  lemma PrefixIsDirectory(dir: seq<string>, key: seq<string>)
    requires Segments(dir) && Segments(key)
    ensures Join(dir) + "/" <= Join(key) <==> dir < key
  {
    if Join(dir) + "/" <= Join(key) {
      PrefixSplits(dir, key, Join(key)[|Join(dir)| + 1..]);
    }
    if dir < key {
      DirectoryIsPrefix(dir, key);
    }
  }

  // --- the registry's keys

  /** One row of the registry's store, named by what it is about. */
  datatype Key =
    | MappingRow(provider: string, nativeId: string)
    | AliasRow(provider: string, nativeId: string, generation: nat)
    | EntryRow(id: string)
    | ConflictRow(id: string)
    | TitleRow(title: string, kind: int, id: string)
    | ExternalIdRow(namespace: string, value: string, id: string)

  predicate WellFormed(k: Key)
  {
    match k
    case MappingRow(p, n) => IsBytes(p) && IsBytes(n)
    case AliasRow(p, n, g) => IsBytes(p) && IsBytes(n) && g < 0x1_0000_0000_0000_0000
    case EntryRow(id) => '/' !in id
    case ConflictRow(id) => '/' !in id
    case TitleRow(t, _, id) => IsBytes(t) && '/' !in id
    case ExternalIdRow(ns, v, id) => IsBytes(ns) && IsBytes(v) && '/' !in id
  }

  function LowerHex(d: nat): char
    requires d < 16
  {
    if d < 10 then '0' + (d as char) else 'a' + ((d - 10) as char)
  }

  /** The low `width` hexadecimal digits of n: `%016x` for width 16. */
  function Hex(n: nat, width: nat): (s: string)
    ensures |s| == width && '/' !in s
  {
    if width == 0 then [] else Hex(n / 16, width - 1) + [LowerHex(n % 16)]
  }

  function Pow16(w: nat): nat
  {
    if w == 0 then 1 else 16 * Pow16(w - 1)
  }

  lemma {:induction false} HexInjective(m: nat, n: nat, width: nat)
    requires m < Pow16(width) && n < Pow16(width) && Hex(m, width) == Hex(n, width)
    ensures m == n
  {
    if width > 0 {
      assert Hex(m / 16, width - 1) == Hex(m, width)[..width - 1];
      assert Hex(n / 16, width - 1) == Hex(n, width)[..width - 1];
      assert LowerHex(m % 16) == Hex(m, width)[width - 1] == LowerHex(n % 16);
      HexInjective(m / 16, n / 16, width - 1);
    }
  }

  lemma Pow16Of16()
    ensures Pow16(16) == 0x1_0000_0000_0000_0000
  {
    assert Pow16(4) == 0x1_0000;
    assert Pow16(8) == 0x1_0000_0000;
    assert Pow16(12) == 0x1_0000_0000_0000;
  }

  lemma ItoaSlashFree(n: int)
    ensures '/' !in Decimal.Itoa(n)
  {
    assert forall c :: Decimal.IsDigit(c) ==> c != '/';
  }

  /** The path segments of a row's key. */
  function Path(k: Key): (segs: seq<string>)
    requires WellFormed(k)
    ensures Segments(segs)
  {
    match k
    case MappingRow(p, n) => ["reg", "m", PathEscape(p), PathEscape(n)]
    case AliasRow(p, n, g) => ["reg", "a", PathEscape(p), PathEscape(n), Hex(g, 16)]
    case EntryRow(id) => ["reg", "e", id]
    case ConflictRow(id) => ["reg", "conflict", id]
    case TitleRow(t, kind, id) =>
      ItoaSlashFree(kind);
      ["reg", "it", PathEscape(t), Decimal.Itoa(kind), id]
    case ExternalIdRow(ns, v, id) => ["reg", "ix", PathEscape(ns), PathEscape(v), id]
  }

  function Render(k: Key): string
    requires WellFormed(k)
  {
    Join(Path(k))
  }

  function TitlePrefix(title: string, kind: int): string
    requires IsBytes(title)
  {
    Join(["reg", "it", PathEscape(title), Decimal.Itoa(kind)]) + "/"
  }

  function ExternalIdPrefix(ns: string, value: string): string
    requires IsBytes(ns) && IsBytes(value)
  {
    Join(["reg", "ix", PathEscape(ns), PathEscape(value)]) + "/"
  }

  /** The text after the last slash. */
  function PathTail(key: string): string
  {
    if '/' !in key then key else PathTail(key[1..])
  }

  lemma {:induction false} PathTailAfterSlash(head: string, id: string)
    requires '/' !in id
    ensures PathTail(head + "/" + id) == id
  {
    var w := head + "/" + id;
    assert w[|head|] == '/';
    if head == [] {
      assert w[1..] == id;
    } else {
      assert w[1..] == head[1..] + "/" + id;
      PathTailAfterSlash(head[1..], id);
    }
  }

  lemma {:induction false} JoinLast(segs: seq<string>)
    requires |segs| > 1
    ensures Join(segs) == Join(segs[..|segs| - 1]) + "/" + segs[|segs| - 1]
  {
    if |segs| > 2 {
      JoinLast(segs[1..]);
      assert segs[1..][..|segs| - 2] == segs[..|segs| - 1][1..];
    }
  }

  /** The last path segment of an index row is the entry id it was put under. */
  lemma IndexRowTail(k: Key)
    requires WellFormed(k) && (k.TitleRow? || k.ExternalIdRow?)
    ensures PathTail(Render(k)) == k.id
  {
    var p := Path(k);
    JoinLast(p);
    PathTailAfterSlash(Join(p[..|p| - 1]), k.id);
  }

  /** Distinct rows live under distinct keys. */
  lemma RenderInjective(a: Key, b: Key)
    requires WellFormed(a) && WellFormed(b) && Render(a) == Render(b)
    ensures a == b
  {
    JoinInjective(Path(a), Path(b));
    var p, q := Path(a), Path(b);
    assert p[1] == q[1] && p[2] == q[2];
    match a {
      case EntryRow(_) =>
      case ConflictRow(_) =>
      case MappingRow(x, y) => SegmentsDetermine(x, y, b.provider, b.nativeId);
      case AliasRow(x, y, g) =>
        SegmentsDetermine(x, y, b.provider, b.nativeId);
        assert p[4] == q[4];
        Pow16Of16();
        HexInjective(g, b.generation, 16);
      case TitleRow(t, kind, id) =>
        EscapeInjective(t, b.title);
        assert p[3] == q[3] && p[4] == q[4];
        Decimal.ItoaInjective(kind, b.kind);
      case ExternalIdRow(x, y, id) =>
        assert p[4] == q[4];
        SegmentsDetermine(x, y, b.namespace, b.value);
    }
  }

  lemma SegmentsDetermine(a: string, b: string, c: string, d: string)
    requires IsBytes(a) && IsBytes(b) && IsBytes(c) && IsBytes(d)
    requires PathEscape(a) == PathEscape(c) && PathEscape(b) == PathEscape(d)
    ensures a == c && b == d
  {
    EscapeInjective(a, c);
    EscapeInjective(b, d);
  }

  /** Listing an external-ID prefix hits exactly that pair's bucket, whatever
      else the store holds. */
  lemma ExternalIdListing(ns: string, value: string, k: Key)
    requires IsBytes(ns) && IsBytes(value) && WellFormed(k)
    ensures ExternalIdPrefix(ns, value) <= Render(k)
       <==> k.ExternalIdRow? && k.namespace == ns && k.value == value
  {
    var dir := ["reg", "ix", PathEscape(ns), PathEscape(value)];
    var p := Path(k);
    PrefixIsDirectory(dir, p);
    if dir < p {
      assert p[1] == "ix" && p[2] == PathEscape(ns) && p[3] == PathEscape(value);
      SegmentsDetermine(ns, value, k.namespace, k.value);
    }
  }

  /** Listing a title prefix hits exactly that (title, kind) bucket. */
  lemma TitleListing(title: string, kind: int, k: Key)
    requires IsBytes(title) && WellFormed(k)
    ensures TitlePrefix(title, kind) <= Render(k)
       <==> k.TitleRow? && k.title == title && k.kind == kind
  {
    ItoaSlashFree(kind);
    var dir := ["reg", "it", PathEscape(title), Decimal.Itoa(kind)];
    var p := Path(k);
    PrefixIsDirectory(dir, p);
    if dir < p {
      assert p[1] == "it" && p[2] == PathEscape(title) && p[3] == Decimal.Itoa(kind);
      EscapeInjective(title, k.title);
      Decimal.ItoaInjective(kind, k.kind);
    }
  }
}
