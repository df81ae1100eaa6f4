/**
 The byte stream behind a manifest's tree digest: per member its path, size and
 content digest, separated by NUL and newline bytes.
 */
module TreeDigest {
  import opened Wrappers
  import opened Ordering
  import opened Utf8

  datatype FileMeta = FileMeta(size: nat, sha256: string)

  type Inventory = map<string, FileMeta>

  const NUL: Byte := 0
  const NEWLINE: Byte := 10

  function Digit(d: nat): char
    requires d < 10
  {
    '0' + d as char
  }

  /** `str(size)`. */
  function Decimal(n: nat): string {
    if n < 10 then [Digit(n)] else Decimal(n / 10) + [Digit(n % 10)]
  }

  function Record(path: string, meta: FileMeta): seq<Byte> {
    Encode(path) + [NUL] + Encode(Decimal(meta.size)) + [NUL] + Encode(meta.sha256) + [NEWLINE]
  }

  /** What is fed to the hash, member after member. */
  function Stream(listing: seq<(string, FileMeta)>): seq<Byte> {
    if listing == [] then [] else Record(listing[0].0, listing[0].1) + Stream(listing[1..])
  }

  // ---- reading it back ----

  predicate IsHex(c: char) { '0' <= c <= '9' || 'a' <= c <= 'f' }

  /** Paths hold no NUL, as on any POSIX file system, and digests are lower-case hex. */
  predicate Clean(path: string, meta: FileMeta) {
    && (forall i :: 0 <= i < |path| ==> path[i] != '\0')
    && (forall i :: 0 <= i < |meta.sha256| ==> IsHex(meta.sha256[i]))
  }

  lemma EncodeCharAscii(c: char, b: Byte)
    requires b < 0x80 && c as int != b
    ensures b !in EncodeChar(c)
  {
  }

  /** A byte below 0x80 only ever stands for its own character. */
  lemma {:induction false} AsciiOnlyForItself(s: string, b: Byte)
    requires b < 0x80 && forall i :: 0 <= i < |s| ==> s[i] as int != b
    ensures b !in Encode(s)
  {
    hide EncodeChar;
    if s != "" {
      EncodeCharAscii(s[0], b);
      AsciiOnlyForItself(s[1..], b);
    }
  }

  lemma SplitAtFirst(x: seq<Byte>, y: seq<Byte>, x': seq<Byte>, y': seq<Byte>, sep: Byte)
    requires x + [sep] + y == x' + [sep] + y' && sep !in x && sep !in x'
    ensures x == x' && y == y'
  {
    var whole := x + [sep] + y;
    assert whole[|x|] == whole[|x'|] == sep;
    assert forall i :: 0 <= i < |x| ==> whole[i] == x[i];
    assert forall i :: 0 <= i < |x'| ==> whole[i] == x'[i];
    assert |x| == |x'|;
    assert y == whole[|x| + 1..] == y';
  }

  function Value(s: string): int {
    if s == "" then 0 else Value(s[..|s| - 1]) * 10 + (s[|s| - 1] as int - '0' as int)
  }

  lemma {:induction false} DecimalValue(n: nat)
    ensures Value(Decimal(n)) == n
    ensures forall i :: 0 <= i < |Decimal(n)| ==> '0' <= Decimal(n)[i] <= '9'
  {
    if n < 10 {
      assert Decimal(n)[..0] == "";
    } else {
      DecimalValue(n / 10);
      assert Decimal(n)[..|Decimal(n)| - 1] == Decimal(n / 10);
    }
  }

  lemma DecimalHasNoNul(n: nat)
    ensures NUL !in Encode(Decimal(n))
  {
    DecimalValue(n);
    AsciiOnlyForItself(Decimal(n), NUL);
  }

  /** The first record of a stream can be told from what follows. */
  lemma RecordIsReadable(p: string, m: FileMeta, rest: seq<Byte>, p': string, m': FileMeta, rest': seq<Byte>)
    requires Clean(p, m) && Clean(p', m') && Record(p, m) + rest == Record(p', m') + rest'
    ensures p == p' && m == m' && rest == rest'
  {
    hide Encode, Decimal;
    AsciiOnlyForItself(p, NUL);
    AsciiOnlyForItself(p', NUL);
    DecimalHasNoNul(m.size);
    DecimalHasNoNul(m'.size);
    AsciiOnlyForItself(m.sha256, NEWLINE);
    AsciiOnlyForItself(m'.sha256, NEWLINE);
    var tail := Encode(Decimal(m.size)) + [NUL] + (Encode(m.sha256) + [NEWLINE] + rest);
    var tail' := Encode(Decimal(m'.size)) + [NUL] + (Encode(m'.sha256) + [NEWLINE] + rest');
    assert Record(p, m) + rest == Encode(p) + [NUL] + tail;
    assert Record(p', m') + rest' == Encode(p') + [NUL] + tail';
    SplitAtFirst(Encode(p), tail, Encode(p'), tail', NUL);
    SplitAtFirst(Encode(Decimal(m.size)), Encode(m.sha256) + [NEWLINE] + rest,
                 Encode(Decimal(m'.size)), Encode(m'.sha256) + [NEWLINE] + rest', NUL);
    SplitAtFirst(Encode(m.sha256), rest, Encode(m'.sha256), rest', NEWLINE);
    EncodeIsInjective(p, p');
    EncodeIsInjective(m.sha256, m'.sha256);
    EncodeIsInjective(Decimal(m.size), Decimal(m'.size));
    DecimalValue(m.size);
    DecimalValue(m'.size);
  }

  /** The bytes before the first separator, all of them if there is none. */
  function UpTo(b: seq<Byte>, sep: Byte): (n: nat)
    ensures n <= |b|
  {
    if b == [] || b[0] == sep then 0 else 1 + UpTo(b[1..], sep)
  }

  lemma {:induction false} UpToFirst(x: seq<Byte>, y: seq<Byte>, sep: Byte)
    requires sep !in x
    ensures UpTo(x + [sep] + y, sep) == |x|
  {
    if x != [] {
      assert (x + [sep] + y)[1..] == x[1..] + [sep] + y;
      UpToFirst(x[1..], y, sep);
    }
  }

  /** A reader of such streams: path, decimal size and digest, up to a NUL, a NUL and a newline. */
  function ReadRecord(b: seq<Byte>): (r: Option<((string, FileMeta), seq<Byte>)>)
    ensures r.Some? ==> |r.value.1| < |b|
  {
    var i := UpTo(b, NUL);
    if i == |b| then None
    else
      var sized := b[i + 1..];
      var j := UpTo(sized, NUL);
      if j == |sized| then None
      else
        var signed := sized[j + 1..];
        var k := UpTo(signed, NEWLINE);
        var size := Value(DecodeIgnore(sized[..j]));
        if k == |signed| || size < 0 then None
        else Some(((DecodeIgnore(b[..i]), FileMeta(size, DecodeIgnore(signed[..k]))), signed[k + 1..]))
  }

  function ReadStream(b: seq<Byte>): Option<seq<(string, FileMeta)>>
    decreases |b|
  {
    if b == [] then Some([])
    else
      var first := ReadRecord(b);
      if first.None? then None
      else
        var rest := ReadStream(first.value.1);
        if rest.None? then None else Some([first.value.0] + rest.value)
  }

  lemma FieldReadsBack(text: string, rest: seq<Byte>, sep: Byte)
    requires sep !in Encode(text)
    ensures var b := Encode(text) + [sep] + rest; var n := UpTo(b, sep);
            n < |b| && DecodeIgnore(b[..n]) == text && b[n + 1..] == rest
  {
    hide Encode, DecodeIgnore;
    UpToFirst(Encode(text), rest, sep);
    RoundTrip(text);
    assert (Encode(text) + [sep] + rest)[..|Encode(text)|] == Encode(text);
  }

  lemma RecordInFields(p: string, m: FileMeta, rest: seq<Byte>)
    ensures Record(p, m) + rest ==
              Encode(p) + [NUL] + (Encode(Decimal(m.size)) + [NUL] + (Encode(m.sha256) + [NEWLINE] + rest))
  {
    hide Encode, Decimal;
  }

  /** Reading a record gives back its path, size and digest, and leaves what follows. */
  lemma RecordReadsBack(p: string, m: FileMeta, rest: seq<Byte>)
    requires Clean(p, m)
    ensures ReadRecord(Record(p, m) + rest) == Some(((p, m), rest))
  {
    AsciiOnlyForItself(p, NUL);
    DecimalHasNoNul(m.size);
    AsciiOnlyForItself(m.sha256, NEWLINE);
    DecimalValue(m.size);
    hide Encode, Decimal, DecodeIgnore, UpTo, Value, Clean;
    var signed := Encode(m.sha256) + [NEWLINE] + rest;
    var sized := Encode(Decimal(m.size)) + [NUL] + signed;
    RecordInFields(p, m, rest);
    hide Record;
    FieldReadsBack(p, sized, NUL);
    FieldReadsBack(Decimal(m.size), signed, NUL);
    FieldReadsBack(m.sha256, rest, NEWLINE);
  }

  /** The whole stream reads back as the listing. */
  lemma {:induction false} StreamReadsBack(listing: seq<(string, FileMeta)>)
    requires forall i :: 0 <= i < |listing| ==> Clean(listing[i].0, listing[i].1)
    ensures ReadStream(Stream(listing)) == Some(listing)
  {
    hide Record, ReadRecord, Clean;
    if listing != [] {
      RecordIsNotEmpty(listing[0].0, listing[0].1);
      RecordReadsBack(listing[0].0, listing[0].1, Stream(listing[1..]));
      StreamReadsBack(listing[1..]);
      assert listing == [listing[0]] + listing[1..];
    }
  }

  lemma RecordIsNotEmpty(p: string, m: FileMeta)
    ensures Record(p, m) != []
  {
  }

  lemma {:induction false} StreamDeterminesListing(a: seq<(string, FileMeta)>, b: seq<(string, FileMeta)>)
    requires forall i :: 0 <= i < |a| ==> Clean(a[i].0, a[i].1)
    requires forall i :: 0 <= i < |b| ==> Clean(b[i].0, b[i].1)
    requires Stream(a) == Stream(b)
    ensures a == b
  {
    hide Record, Clean;
    if a == [] || b == [] {
      if a != [] { RecordIsNotEmpty(a[0].0, a[0].1); }
      if b != [] { RecordIsNotEmpty(b[0].0, b[0].1); }
    } else {
      RecordIsReadable(a[0].0, a[0].1, Stream(a[1..]), b[0].0, b[0].1, Stream(b[1..]));
      StreamDeterminesListing(a[1..], b[1..]);
      assert a == [a[0]] + a[1..] && b == [b[0]] + b[1..];
    }
  }

  /** `sorted(files.items())`: every member once, by path. */
  ghost predicate Lists(files: Inventory, listing: seq<(string, FileMeta)>) {
    && (forall i :: 0 <= i < |listing| ==> listing[i].0 in files && files[listing[i].0] == listing[i].1)
    && (forall p :: p in files ==> (p, files[p]) in listing)
    && (forall i, j :: 0 <= i < j < |listing| ==> StringLe(listing[i].0, listing[j].0) && listing[i].0 != listing[j].0)
  }

  ghost predicate CleanInventory(files: Inventory) {
    forall p :: p in files ==> Clean(p, files[p])
  }

  /**
   Two inventories that feed the hash the same bytes are the same map from path
   to size and digest, whatever newlines or digits their paths contain.
   */
  lemma StreamDeterminesInventory(a: Inventory, la: seq<(string, FileMeta)>, b: Inventory, lb: seq<(string, FileMeta)>)
    requires CleanInventory(a) && CleanInventory(b) && Lists(a, la) && Lists(b, lb) && Stream(la) == Stream(lb)
    ensures a == b
  {
    hide Clean, Stream;
    forall i | 0 <= i < |la| ensures Clean(la[i].0, la[i].1) {
      assert la[i].0 in a;
    }
    forall i | 0 <= i < |lb| ensures Clean(lb[i].0, lb[i].1) {
      assert lb[i].0 in b;
    }
    StreamDeterminesListing(la, lb);
    forall p | p in a ensures p in b && b[p] == a[p] {
      var i :| 0 <= i < |la| && la[i] == (p, a[p]);
      assert lb[i].0 in b;
    }
    forall p | p in b ensures p in a {
      var i :| 0 <= i < |lb| && lb[i] == (p, b[p]);
      assert la[i].0 in a;
    }
    assert a.Keys == b.Keys;
  }

  /** `_tree_sha256` up to the hash itself. */
  method TreeStream(files: Inventory) returns (stream: seq<Byte>, ghost listing: seq<(string, FileMeta)>)
    ensures Lists(files, listing) && stream == Stream(listing)
    ensures exists l :: Lists(files, l) && stream == Stream(l)
  {
    hide Record, StringLe;
    var paths := SortedNames(files.Keys);
    stream := [];
    listing := [];
    assert Stream([]) == [];
    hide Stream;
    for i := 0 to |paths|
      invariant |listing| == i && stream == Stream(listing)
      invariant forall j :: 0 <= j < i ==> paths[j] in files && listing[j] == (paths[j], files[paths[j]])
    {
      assert paths[i] in paths;
      StreamSnoc(listing, (paths[i], files[paths[i]]));
      stream := stream + Record(paths[i], files[paths[i]]);
      listing := listing + [(paths[i], files[paths[i]])];
    }
    forall p | p in files ensures (p, files[p]) in listing {
      assert p in paths;
      var i :| 0 <= i < |paths| && paths[i] == p;
      assert listing[i] == (p, files[p]);
    }
  }

  lemma {:induction false} StreamSnoc(listing: seq<(string, FileMeta)>, last: (string, FileMeta))
    ensures Stream(listing + [last]) == Stream(listing) + Record(last.0, last.1)
  {
    hide Record;
    if listing == [] {
      assert listing + [last] == [last];
      assert Stream([last]) == Record(last.0, last.1) + Stream([last][1..]);
    } else {
      StreamSnoc(listing[1..], last);
      assert (listing + [last])[1..] == listing[1..] + [last];
    }
  }
}
