/**
 * The littlefs-backed key/value store: how a key becomes a file path
 * (percent-encoding, a '#' terminator, 16-character path components), how
 * `set`, `get`, `exists` and `remove` assemble that path, the mount flag,
 * and the default rule of the typed getters.
 *
 * The littlefs volume is abstracted as a value `Fs`: a map from file paths
 * to contents and a set of directory paths, with the outcome of each
 * littlefs call stated on it.
 */
module StorageLfs {
  import opened MaTypes

  // ---------------------------------------------------------------------------
  // Key encoding
  // ---------------------------------------------------------------------------

  /** One `char` of a C++ `std::string`: a byte. */
  type KeyByte = c: char | c as int < 256

  predicate IsAlnum(c: char) { 'a' <= c <= 'z' || 'A' <= c <= 'Z' || IsDigit(c) }

  /** The characters a key keeps as they are. */
  predicate Verbatim(c: char) { IsAlnum(c) || c == '_' || c == '-' || c == '.' }

  predicate IsHexChar(c: char) { IsDigit(c) || 'a' <= c <= 'f' }

  function HexValue(c: char): nat
    requires IsHexChar(c)
  {
    if IsDigit(c) then c as int - '0' as int else c as int - 'a' as int + 10
  }

  /** Entry `d` of the `hex_digits` table "0123456789abcdef". */
  function HexDigit(d: nat): (r: char)
    requires d < 16
    ensures IsHexChar(r) && HexValue(r) == d
  {
    if d < 10 then ('0' as int + d) as char else ('a' as int + d - 10) as char
  }

  lemma HexDigitTable()
    ensures forall d :: 0 <= d < 16 ==> HexDigit(d) == "0123456789abcdef"[d]
  {
  }

  /** One key byte: kept, or replaced by '%' and the hex digits of its high and low nibble. */
  function EncodeByte(c: KeyByte): (r: string)
    ensures Verbatim(c) ==> r == [c]
    ensures !Verbatim(c) ==> |r| == 3 && r[0] == '%' && IsHexChar(r[1]) && IsHexChar(r[2])
                             && HexValue(r[1]) * 16 + HexValue(r[2]) == c as int
  {
    if Verbatim(c) then [c] else ['%', HexDigit(c as int / 16), HexDigit(c as int % 16)]
  }

  /** The encoded key without its terminator: only verbatim characters, '%' and hex digits. */
  function EncodeBody(key: seq<KeyByte>): (r: string)
    ensures |key| <= |r| <= 3 * |key|
    ensures forall i :: 0 <= i < |r| ==> Verbatim(r[i]) || r[i] == '%'
  {
    if key == [] then [] else EncodeByte(key[0]) + EncodeBody(key[1..])
  }

  lemma {:induction false} EncodeBodyAppend(a: seq<KeyByte>, b: seq<KeyByte>)
    ensures EncodeBody(a + b) == EncodeBody(a) + EncodeBody(b)
    decreases |a|
  {
    if a == [] {
      assert a + b == b;
    } else {
      assert (a + b)[1..] == a[1..] + b;
      EncodeBodyAppend(a[1..], b);
    }
  }

  /** `keyToPath`'s encoded key: the body followed by one '#', which occurs nowhere else. */
  function EncodeKey(key: seq<KeyByte>): (r: string)
    ensures |key| + 1 <= |r| <= 3 * |key| + 1
    ensures r[|r| - 1] == '#' && forall i :: 0 <= i < |r| - 1 ==> r[i] != '#'
    ensures forall i :: 0 <= i < |r| ==> r[i] != '/'
  {
    EncodeBody(key) + "#"
  }

  /** Reads an encoded body back; `None` for text `EncodeBody` never produces. */
  function DecodeBody(s: string): (r: Option<seq<KeyByte>>)
    decreases |s|
  {
    if s == [] then Some([])
    else if s[0] == '%' then
      if |s| >= 3 && IsHexChar(s[1]) && IsHexChar(s[2]) then
        match DecodeBody(s[3..])
        case None => None
        case Some(rest) => Some([(HexValue(s[1]) * 16 + HexValue(s[2])) as char] + rest)
      else None
    else if Verbatim(s[0]) then
      match DecodeBody(s[1..])
      case None => None
      case Some(rest) => Some([s[0]] + rest)
    else None
  }

  function DecodeKey(s: string): Option<seq<KeyByte>>
  {
    if |s| >= 1 && s[|s| - 1] == '#' then DecodeBody(s[..|s| - 1]) else None
  }

  lemma {:induction false} DecodeEncodeBody(key: seq<KeyByte>)
    ensures DecodeBody(EncodeBody(key)) == Some(key)
    decreases |key|
  {
    if key != [] {
      var e := EncodeBody(key);
      var head := EncodeByte(key[0]);
      DecodeEncodeBody(key[1..]);
      assert e == head + EncodeBody(key[1..]);
      if Verbatim(key[0]) {
        assert e[0] == key[0] && e[1..] == EncodeBody(key[1..]);
      } else {
        assert e[0] == '%' && e[1] == head[1] && e[2] == head[2];
        assert e[3..] == EncodeBody(key[1..]);
      }
      assert [key[0]] + key[1..] == key;
    }
  }

  lemma DecodeKeyTerminated(body: string)
    ensures DecodeKey(body + "#") == DecodeBody(body)
  {
    assert (body + "#")[..|body|] == body;
  }

  /** Decoding recovers every key from its encoding. */
  lemma KeyRoundTrip(key: seq<KeyByte>)
    ensures DecodeKey(EncodeKey(key)) == Some(key)
  {
    DecodeKeyTerminated(EncodeBody(key));
    DecodeEncodeBody(key);
  }

  /** Distinct keys have distinct encodings. */
  lemma EncodeKeyInjective(k1: seq<KeyByte>, k2: seq<KeyByte>)
    ensures EncodeKey(k1) == EncodeKey(k2) ==> k1 == k2
  {
    KeyRoundTrip(k1);
    KeyRoundTrip(k2);
  }

  // ---------------------------------------------------------------------------
  // Path components
  // ---------------------------------------------------------------------------

  /** `s` cut into consecutive pieces of `bs` characters, the last one possibly shorter. */
  function Chunks(s: string, bs: nat): seq<string>
    requires bs > 0
    decreases |s|
  {
    if s == [] then []
    else
      var n := if |s| < bs then |s| else bs;
      [s[..n]] + Chunks(s[n..], bs)
  }

  function Concat(parts: seq<string>): string
  {
    if parts == [] then [] else parts[0] + Concat(parts[1..])
  }

  /** The first piece and the rest, for a non-empty `s`. */
  lemma ChunksUnfold(s: string, bs: nat)
    requires bs > 0 && s != []
    ensures var n := if |s| < bs then |s| else bs;
            Chunks(s, bs) == [s[..n]] + Chunks(s[n..], bs)
  {
  }

  /** The pieces concatenate back to `s`, and there are none exactly when `s` is empty. */
  lemma {:induction false} ChunksConcat(s: string, bs: nat)
    requires bs > 0
    ensures Concat(Chunks(s, bs)) == s
    ensures Chunks(s, bs) == [] <==> s == []
    decreases |s|
  {
    if s != [] {
      var n := if |s| < bs then |s| else bs;
      ChunksUnfold(s, bs);
      ChunksConcat(s[n..], bs);
      var parts := Chunks(s, bs);
      assert parts[0] == s[..n] && parts[1..] == Chunks(s[n..], bs);
      assert s[..n] + s[n..] == s;
    }
  }

  /**
   * No piece is empty or longer than `bs`, all but the last have exactly
   * `bs` characters, and there is one piece exactly when `s` is non-empty
   * and fits in `bs`.
   */
  lemma {:induction false} ChunksSizes(s: string, bs: nat)
    requires bs > 0
    ensures var parts := Chunks(s, bs);
            && (|parts| == 1 <==> 1 <= |s| <= bs)
            && (forall k :: 0 <= k < |parts| ==> 1 <= |parts[k]| <= bs)
            && (forall k :: 0 <= k < |parts| - 1 ==> |parts[k]| == bs)
    decreases |s|
  {
    if s != [] {
      var n := if |s| < bs then |s| else bs;
      ChunksUnfold(s, bs);
      ChunksSizes(s[n..], bs);
      ChunksConcat(s[n..], bs);
      var parts := Chunks(s, bs);
      var rest := Chunks(s[n..], bs);
      assert parts == [s[..n]] + rest;
      assert forall k :: 1 <= k < |parts| ==> parts[k] == rest[k - 1];
    }
  }

  /** A character absent from `s` is absent from every piece. */
  lemma {:induction false} ChunksAvoid(s: string, bs: nat, ch: char)
    requires bs > 0 && ch !in s
    ensures forall k :: 0 <= k < |Chunks(s, bs)| ==> ch !in Chunks(s, bs)[k]
    decreases |s|
  {
    if s != [] {
      var n := if |s| < bs then |s| else bs;
      ChunksUnfold(s, bs);
      assert s == s[..n] + s[n..];
      assert ch !in s[..n] && ch !in s[n..];
      ChunksAvoid(s[n..], bs, ch);
      var parts := Chunks(s, bs);
      var rest := Chunks(s[n..], bs);
      assert parts == [s[..n]] + rest;
      assert forall k :: 1 <= k < |parts| ==> parts[k] == rest[k - 1];
    }
  }

  /** The path components of a key, as `setImpl`, `getImpl`, `remove` and `exists` compute them. */
  function PartsOf(key: seq<KeyByte>): seq<string>
  {
    Chunks(EncodeKey(key), 16)
  }

  /**
   * Every key has at least one component, none empty, none over 16
   * characters and none containing '/'; there is a single component exactly
   * when the encoded key fits in 16 characters. The "no parts" checks of
   * the callers can therefore never fire.
   */
  lemma PartsOfSpec(key: seq<KeyByte>)
    ensures var parts := PartsOf(key);
            && |parts| >= 1
            && Concat(parts) == EncodeKey(key)
            && (forall k :: 0 <= k < |parts| ==> 1 <= |parts[k]| <= 16 && '/' !in parts[k])
            && (|parts| == 1 <==> |EncodeKey(key)| <= 16)
  {
    ChunksConcat(EncodeKey(key), 16);
    ChunksSizes(EncodeKey(key), 16);
    ChunksAvoid(EncodeKey(key), 16, '/');
  }

  /** `keyToPath`: encodes the key character by character, then cuts it into `breakSize` pieces. */
  method KeyToPath(key: seq<KeyByte>, breakSize: nat) returns (parts: seq<string>)
    requires breakSize > 0
    ensures parts == Chunks(EncodeKey(key), breakSize)
  {
    var encoded := EncodeKeyLoop(key);
    parts := ChunkLoop(encoded, breakSize);
  }

  /** The encoding loop of `keyToPath`. */
  method EncodeKeyLoop(key: seq<KeyByte>) returns (encoded: string)
    ensures encoded == EncodeKey(key)
  {
    encoded := "";
    for i := 0 to |key|
      invariant encoded == EncodeBody(key[..i])
    {
      var c := key[i];
      EncodeBodyAppend(key[..i], [c]);
      assert key[..i + 1] == key[..i] + [c];
      assert EncodeBody([c]) == EncodeByte(c);
      if Verbatim(c) {
        encoded := encoded + [c];
      } else {
        encoded := encoded + ['%', HexDigit(c as int / 16), HexDigit(c as int % 16)];
      }
    }
    assert key[..|key|] == key;
    encoded := encoded + ['#'];
  }

  /** The piece starting at `i`, in terms of `s` itself. */
  lemma ChunksAt(s: string, i: nat, bs: nat)
    requires bs > 0 && i < |s|
    ensures var end := if i + bs < |s| then i + bs else |s|;
            Chunks(s[i..], bs) == [s[i..end]] + Chunks(s[end..], bs)
  {
    var end := if i + bs < |s| then i + bs else |s|;
    var rest := s[i..];
    ChunksUnfold(rest, bs);
    assert rest[..end - i] == s[i..end];
    assert rest[end - i..] == s[end..];
  }

  /** The splitting loop of `keyToPath`: `substr(i, breakSize)` for `i = 0, breakSize, ...`. */
  method ChunkLoop(encoded: string, breakSize: nat) returns (parts: seq<string>)
    requires breakSize > 0
    ensures parts == Chunks(encoded, breakSize)
  {
    parts := [];
    var i := 0;
    while i < |encoded|
      invariant i <= |encoded| ==> parts + Chunks(encoded[i..], breakSize) == Chunks(encoded, breakSize)
      invariant i > |encoded| ==> parts == Chunks(encoded, breakSize)
      decreases |encoded| - i
    {
      var end := if i + breakSize < |encoded| then i + breakSize else |encoded|;
      ChunksAt(encoded, i, breakSize);
      parts := parts + [encoded[i..end]];
      i := i + breakSize;
      if i > |encoded| {
        assert encoded[end..] == [];
      }
    }
  }

  // ---------------------------------------------------------------------------
  // Paths
  // ---------------------------------------------------------------------------

  /** "/p0/p1/.../pn": the path `getImpl`, `exists` and `remove` build. */
  function JoinPath(parts: seq<string>): string
  {
    if parts == [] then [] else JoinPath(parts[..|parts| - 1]) + "/" + parts[|parts| - 1]
  }

  /** The components glued together with no separator. */
  function Glue(parts: seq<string>): string
  {
    if parts == [] then [] else Glue(parts[..|parts| - 1]) + parts[|parts| - 1]
  }

  /** The file path `setImpl` builds: "/" followed by every component with no separator. */
  function SetPathAsWritten(parts: seq<string>): (r: string)
    ensures SlashFree(parts) ==> CountChar(r, '/') == 1
  {
    if SlashFree(parts) then
      GlueSlashFree(parts);
      CountCharAppend("/", Glue(parts), '/');
      assert "/"[..0] == [];
      "/" + Glue(parts)
    else "/" + Glue(parts)
  }

  /**
   * The directories `setImpl` creates: "/" followed by the first one, two,
   * ... components, glued. Each is the file path with the remaining
   * components cut off, so none of them is a directory holding the file.
   */
  function SetDirsAsWritten(parts: seq<string>): (r: seq<string>)
    ensures |r| == if parts == [] then 0 else |parts| - 1
    ensures forall k :: 0 <= k < |r| ==> r[k] + Glue(parts[k + 1..]) == "/" + Glue(parts)
  {
    var dirs := seq(if parts == [] then 0 else |parts| - 1, k requires 0 <= k < |parts| - 1 => "/" + Glue(parts[..k + 1]));
    forall k | 0 <= k < |dirs| ensures dirs[k] + Glue(parts[k + 1..]) == "/" + Glue(parts) {
      GlueAppend(parts, k + 1);
    }
    dirs
  }

  lemma {:induction false} GlueAppend(parts: seq<string>, k: nat)
    requires k <= |parts|
    ensures Glue(parts) == Glue(parts[..k]) + Glue(parts[k..])
    decreases |parts|
  {
    if k < |parts| {
      var init := parts[..|parts| - 1];
      GlueAppend(init, k);
      assert init[..k] == parts[..k];
      assert parts[k..][..|parts[k..]| - 1] == init[k..];
    } else {
      assert parts[..k] == parts;
      assert parts[k..] == [];
    }
  }

  /** The file path meant for `setImpl`: the same one `getImpl` opens. */
  function SetPath(parts: seq<string>): string
  {
    JoinPath(parts)
  }

  /** The directories meant for `setImpl`: every proper ancestor of the file, "/p0", "/p0/p1", ... */
  function SetDirs(parts: seq<string>): seq<string>
  {
    seq(if parts == [] then 0 else |parts| - 1, k requires 0 <= k < |parts| - 1 => JoinPath(parts[..k + 1]))
  }

  predicate SlashFree(parts: seq<string>)
  {
    forall k :: 0 <= k < |parts| ==> '/' !in parts[k]
  }

  lemma {:induction false} JoinPathSlashes(parts: seq<string>)
    requires SlashFree(parts)
    ensures CountChar(JoinPath(parts), '/') == |parts|
    decreases |parts|
  {
    if parts != [] {
      var init := parts[..|parts| - 1];
      JoinPathSlashes(init);
      CountCharAppend(JoinPath(init) + "/", parts[|parts| - 1], '/');
      CountCharAppend(JoinPath(init), "/", '/');
      assert "/"[..0] == [];
    }
  }

  lemma {:induction false} GlueSlashFree(parts: seq<string>)
    requires SlashFree(parts)
    ensures '/' !in Glue(parts)
    decreases |parts|
  {
    if parts != [] {
      GlueSlashFree(parts[..|parts| - 1]);
    }
  }

  /**
   * With slash-free components, the file `setImpl` writes is the file
   * `getImpl` reads exactly when the key has a single component.
   */
  lemma SetPathAsWrittenAgreesIff(parts: seq<string>)
    requires |parts| >= 1 && SlashFree(parts)
    ensures SetPathAsWritten(parts) == JoinPath(parts) <==> |parts| == 1
  {
    if |parts| == 1 {
      var p0 := parts[0];
      assert parts[..0] == [];
      assert JoinPath(parts) == JoinPath(parts[..0]) + "/" + p0;
      assert Glue(parts) == Glue(parts[..0]) + p0;
      assert JoinPath(parts) == "/" + p0 by {
        assert [] + "/" + p0 == "/" + p0;
      }
      assert Glue(parts) == p0 by {
        assert [] + p0 == p0;
      }
    } else {
      JoinPathSlashes(parts);
    }
  }

  /** For a key: `set` and `get` agree on the file exactly when the encoded key fits in 16 characters. */
  lemma SetGetPathsAgreeIff(key: seq<KeyByte>)
    ensures SetPathAsWritten(PartsOf(key)) == JoinPath(PartsOf(key)) <==> |EncodeKey(key)| <= 16
  {
    PartsOfSpec(key);
    SetPathAsWrittenAgreesIff(PartsOf(key));
  }

  /** A key of sixteen verbatim characters already needs two components. */
  lemma LongPlainKeySplits(key: seq<KeyByte>)
    requires |key| == 16 && forall i :: 0 <= i < |key| ==> Verbatim(key[i])
    ensures |PartsOf(key)| == 2
    ensures SetPathAsWritten(PartsOf(key)) != JoinPath(PartsOf(key))
  {
    assert EncodeBody(key) == key by {
      VerbatimEncodesAsItself(key);
    }
    var e := EncodeKey(key);
    assert |e| == 17;
    assert Chunks(e, 16) == [e[..16]] + Chunks(e[16..], 16);
    var tail := e[16..];
    assert |tail| == 1 && tail[..1] == tail && tail[1..] == [];
    assert Chunks(tail, 16) == [tail];
    SetGetPathsAgreeIff(key);
  }

  lemma {:induction false} VerbatimEncodesAsItself(key: seq<KeyByte>)
    requires forall i :: 0 <= i < |key| ==> Verbatim(key[i])
    ensures EncodeBody(key) == key
    decreases |key|
  {
    if key != [] {
      VerbatimEncodesAsItself(key[1..]);
      assert [key[0]] + key[1..] == key;
    }
  }

  lemma {:induction false} JoinPathAppend(parts: seq<string>, k: nat)
    requires k <= |parts|
    ensures JoinPath(parts) == JoinPath(parts[..k]) + JoinPath(parts[k..])
    decreases |parts|
  {
    if k < |parts| {
      var init := parts[..|parts| - 1];
      JoinPathAppend(init, k);
      assert init[..k] == parts[..k];
      assert parts[k..][..|parts[k..]| - 1] == init[k..];
    } else {
      assert parts[..k] == parts;
      assert parts[k..] == [];
    }
  }

  /** Each directory the corrected `setImpl` creates is an ancestor of the file it then writes. */
  lemma SetDirsAreAncestors(parts: seq<string>)
    ensures forall k :: 0 <= k < |SetDirs(parts)| ==>
              |SetDirs(parts)[k] + "/"| <= |SetPath(parts)| && SetDirs(parts)[k] + "/" == SetPath(parts)[..|SetDirs(parts)[k]| + 1]
  {
    forall k | 0 <= k < |SetDirs(parts)|
      ensures |SetDirs(parts)[k] + "/"| <= |SetPath(parts)| && SetDirs(parts)[k] + "/" == SetPath(parts)[..|SetDirs(parts)[k]| + 1]
    {
      var d := JoinPath(parts[..k + 1]);
      JoinPathAppend(parts, k + 1);
      var tail := parts[k + 1..];
      assert JoinPath(tail) == JoinPath(tail[..|tail| - 1]) + "/" + tail[|tail| - 1];
      JoinPathAppend(tail, 1);
      assert tail[..1][..0] == [];
      assert JoinPath(tail)[0] == '/';
      assert SetPath(parts) == d + JoinPath(tail);
    }
  }

  /** Removing the separators of a joined path leaves the glued components. */
  function DropSlashes(s: string): string
  {
    if s == [] then [] else DropSlashes(s[..|s| - 1]) + (if s[|s| - 1] == '/' then [] else [s[|s| - 1]])
  }

  lemma {:induction false} DropSlashesAppend(a: string, b: string)
    ensures DropSlashes(a + b) == DropSlashes(a) + DropSlashes(b)
    decreases |b|
  {
    if b == [] {
      assert a + b == a;
    } else {
      assert (a + b)[..|a + b| - 1] == a + b[..|b| - 1];
      DropSlashesAppend(a, b[..|b| - 1]);
    }
  }

  lemma {:induction false} DropSlashesFree(s: string)
    requires '/' !in s
    ensures DropSlashes(s) == s
    decreases |s|
  {
    if s != [] {
      DropSlashesFree(s[..|s| - 1]);
    }
  }

  lemma {:induction false} DropSlashesJoin(parts: seq<string>)
    requires SlashFree(parts)
    ensures DropSlashes(JoinPath(parts)) == Glue(parts)
    decreases |parts|
  {
    if parts != [] {
      var init := parts[..|parts| - 1];
      var last := parts[|parts| - 1];
      assert SlashFree(init) by {
        forall k | 0 <= k < |init| ensures '/' !in init[k] {
          assert init[k] == parts[k];
        }
      }
      DropSlashesJoin(init);
      assert JoinPath(parts) == JoinPath(init) + "/" + last;
      DropSlashesSeparator(JoinPath(init), last);
      assert Glue(parts) == Glue(init) + last;
    }
  }

  /** A separator and a slash-free component added to a path add just the component. */
  lemma DropSlashesSeparator(a: string, b: string)
    requires '/' !in b
    ensures DropSlashes(a + "/" + b) == DropSlashes(a) + b
  {
    var sep := "/";
    DropSlashesAppend(a + sep, b);
    DropSlashesAppend(a, sep);
    assert DropSlashes(sep) == [] by {
      assert sep[..0] == [];
    }
    DropSlashesFree(b);
    var x := DropSlashes(a);
    assert DropSlashes(a + sep) == x + [];
    assert x + [] == x;
    assert DropSlashes(a + sep + b) == DropSlashes(a + sep) + b;
  }

  lemma {:induction false} GlueIsConcat(parts: seq<string>)
    ensures Glue(parts) == Concat(parts)
    decreases |parts|
  {
    if parts != [] {
      var init := parts[..|parts| - 1];
      GlueIsConcat(init);
      if |parts| > 1 {
        GlueIsConcat(parts[1..]);
        assert parts[1..][..|parts[1..]| - 1] == init[1..];
        GlueIsConcat(init[1..]);
        assert Glue(parts[1..]) == Glue(init[1..]) + parts[|parts| - 1];
      } else {
        assert parts[1..] == [];
      }
    }
  }

  /**
   * The file path of a key: one '/' per component, and removing the
   * separators gives back the encoded key.
   */
  function PathOf(key: seq<KeyByte>): (r: string)
    ensures DropSlashes(r) == EncodeKey(key)
    ensures CountChar(r, '/') == |PartsOf(key)|
  {
    var parts := PartsOf(key);
    PartsOfSpec(key);
    DropSlashesJoin(parts);
    GlueIsConcat(parts);
    JoinPathSlashes(parts);
    JoinPath(parts)
  }

  /** Distinct keys are stored in distinct files. */
  lemma PathOfInjective(k1: seq<KeyByte>, k2: seq<KeyByte>)
    ensures PathOf(k1) == PathOf(k2) ==> k1 == k2
  {
    EncodeKeyInjective(k1, k2);
  }

  // ---------------------------------------------------------------------------
  // The volume and the littlefs calls
  // ---------------------------------------------------------------------------

  /** A littlefs volume: file contents by path, and the directory paths. */
  datatype Fs = Fs(files: map<string, seq<bv8>>, dirs: set<string>)

  /** `lfs_mkdir` for each path: an existing file or directory is left alone (`LFS_ERR_EXIST`). */
  function MakeDirs(fs: Fs, ds: seq<string>): (r: Fs)
    ensures r.files == fs.files
    ensures forall d :: d in r.dirs <==> d in fs.dirs || (d in ds && d !in fs.files)
  {
    if ds == [] then fs
    else
      var fs' := MakeDirs(fs, ds[..|ds| - 1]);
      var d := ds[|ds| - 1];
      if d in fs'.files || d in fs'.dirs then fs' else fs'.(dirs := fs'.dirs + {d})
  }

  /**
   * `lfs_file_open(RDWR | CREAT)` then `lfs_file_write` of `data`: the write
   * starts at offset 0 and the file is not truncated, so bytes of an older,
   * longer content past `|data|` stay. A directory cannot be opened.
   */
  function WriteAsWritten(fs: Fs, p: string, data: seq<bv8>): (r: (Fs, Err))
    ensures r.1 == Ok <==> p !in fs.dirs
    ensures r.1 != Ok ==> r.0 == fs
    ensures r.1 == Ok ==> && r.0.dirs == fs.dirs
                          && r.0.files - {p} == fs.files - {p}
                          && p in r.0.files && data <= r.0.files[p]
    ensures r.1 == Ok && p in fs.files && |data| < |fs.files[p]| ==>
              r.0.files[p][|data|..] == fs.files[p][|data|..]
  {
    if p in fs.dirs then (fs, EIo)
    else
      var prev := if p in fs.files then fs.files[p] else [];
      var content := if |prev| > |data| then data + prev[|data|..] else data;
      (fs.(files := fs.files[p := content]), Ok)
  }

  /** The write meant for `set`: the file afterwards holds exactly `data`. */
  function WriteReplacing(fs: Fs, p: string, data: seq<bv8>): (r: (Fs, Err))
    ensures r.1 == Ok <==> p !in fs.dirs
    ensures r.1 == Ok ==> r.0.files == fs.files[p := data] && r.0.dirs == fs.dirs
    ensures r.1 != Ok ==> r.0 == fs
  {
    if p in fs.dirs then (fs, EIo) else (fs.(files := fs.files[p := data]), Ok)
  }

  /**
   * `setImpl` as written: glued directory and file paths, no truncation. It
   * creates at most the glued file and only adds directories; on success
   * that file starts with `data`.
   */
  function SetFsAsWritten(fs: Fs, key: seq<KeyByte>, data: seq<bv8>): (r: (Fs, Err))
    ensures r.0.files.Keys <= fs.files.Keys + {SetPathAsWritten(PartsOf(key))}
    ensures fs.dirs <= r.0.dirs
    ensures r.1 == Ok ==> SetPathAsWritten(PartsOf(key)) in r.0.files && data <= r.0.files[SetPathAsWritten(PartsOf(key))]
  {
    var parts := PartsOf(key);
    WriteAsWritten(MakeDirs(fs, SetDirsAsWritten(parts)), SetPathAsWritten(parts), data)
  }

  /**
   * `setImpl` with separators between components and a replacing write. It
   * creates at most the key's file and only adds directories; on success
   * that file holds exactly `data`.
   */
  function SetFs(fs: Fs, key: seq<KeyByte>, data: seq<bv8>): (r: (Fs, Err))
    ensures r.0.files.Keys <= fs.files.Keys + {PathOf(key)}
    ensures fs.dirs <= r.0.dirs
    ensures r.1 == Ok ==> PathOf(key) in r.0.files && r.0.files[PathOf(key)] == data
  {
    var parts := PartsOf(key);
    WriteReplacing(MakeDirs(fs, SetDirs(parts)), SetPath(parts), data)
  }

  /** `getImpl` on a mounted volume: the whole file, or `EIo` and nothing when it cannot be opened. */
  function GetFs(fs: Fs, key: seq<KeyByte>): (r: (seq<bv8>, Err))
    ensures r.1 == Ok || r.1 == EIo
    ensures r.1 == EIo ==> r.0 == []
  {
    var p := PathOf(key);
    if p in fs.files then (fs.files[p], Ok) else ([], EIo)
  }

  /** `exists` on a mounted volume: `lfs_stat` finds a file or a directory, so it holds whenever `get` succeeds. */
  function ExistsFs(fs: Fs, key: seq<KeyByte>): (r: bool)
    ensures r <==> GetFs(fs, key).1 == Ok || PathOf(key) in fs.dirs
  {
    var p := PathOf(key);
    p in fs.files || p in fs.dirs
  }

  /** No path is both a file and a directory. */
  predicate Consistent(fs: Fs)
  {
    fs.files.Keys !! fs.dirs
  }

  /** `set` (as written and as meant) and `remove` keep the volume consistent. */
  lemma OperationsKeepConsistent(fs: Fs, key: seq<KeyByte>, data: seq<bv8>)
    requires Consistent(fs)
    ensures Consistent(SetFsAsWritten(fs, key, data).0)
    ensures Consistent(SetFs(fs, key, data).0)
    ensures Consistent(RemoveFs(fs, key))
  {
    RemoveChainConsistent(fs, PartsOf(key), |PartsOf(key)|);
  }

  lemma {:induction false} RemoveChainConsistent(fs: Fs, parts: seq<string>, k: nat)
    requires k <= |parts| && Consistent(fs)
    ensures Consistent(RemoveChain(fs, parts, k))
    decreases k
  {
    if k > 0 {
      match LfsRemove(fs, JoinPath(parts[..k]))
      case Removed(fs') => RemoveChainConsistent(fs', parts, k - 1);
      case _ =>
    }
  }

  /** The file of a key is never among the directories `set` creates for it. */
  lemma SetPathNotAmongDirs(parts: seq<string>)
    ensures forall k :: 0 <= k < |SetDirs(parts)| ==> SetDirs(parts)[k] != SetPath(parts)
  {
    SetDirsAreAncestors(parts);
  }

  /** What `set` followed by `get` of the same key reads, as the source is written. */
  lemma SetThenGetAsWritten(fs: Fs, key: seq<KeyByte>, data: seq<bv8>)
    requires |EncodeKey(key)| > 16 && PathOf(key) !in fs.files
    ensures SetFsAsWritten(fs, key, data).1 == Ok ==> GetFs(SetFsAsWritten(fs, key, data).0, key).1 == EIo
  {
    SetGetPathsAgreeIff(key);
  }

  /** A shorter value written over a longer one leaves the old tail for `get` to read. */
  lemma OverwriteKeepsTail(fs: Fs, key: seq<KeyByte>, data: seq<bv8>)
    requires Consistent(fs) && |EncodeKey(key)| <= 16
    requires PathOf(key) in fs.files && |fs.files[PathOf(key)]| > |data|
    ensures SetFsAsWritten(fs, key, data).1 == Ok
    ensures GetFs(SetFsAsWritten(fs, key, data).0, key) == (data + fs.files[PathOf(key)][|data|..], Ok)
  {
    SetGetPathsAgreeIff(key);
    var parts := PartsOf(key);
    var fs1 := MakeDirs(fs, SetDirsAsWritten(parts));
    assert PathOf(key) !in fs1.dirs;
  }

  /** With the intended `set`, `get` of the key returns exactly what was stored, and `exists` holds. */
  lemma SetThenGet(fs: Fs, key: seq<KeyByte>, data: seq<bv8>)
    ensures var (fs', err) := SetFs(fs, key, data);
            err == Ok ==> GetFs(fs', key) == (data, Ok) && ExistsFs(fs', key)
  {
  }

  /** The intended `set` fails only where the key's path is already a directory. */
  lemma SetFailsOnlyOnDirectory(fs: Fs, key: seq<KeyByte>, data: seq<bv8>)
    ensures SetFs(fs, key, data).1 == Ok <==> PathOf(key) !in fs.dirs
  {
    SetPathNotAmongDirs(PartsOf(key));
  }

  /** The intended `set` of one key changes what no other key reads. */
  lemma SetKeepsOtherKeys(fs: Fs, key: seq<KeyByte>, other: seq<KeyByte>, data: seq<bv8>)
    requires other != key
    ensures GetFs(SetFs(fs, key, data).0, other) == GetFs(fs, other)
  {
    PathOfInjective(key, other);
  }

  /** What `lfs_remove` does to one path. */
  datatype RemoveResult = NoEnt | NotEmpty | Removed(fs: Fs)

  predicate IsPrefix(p: string, q: string) { |p| <= |q| && q[..|p|] == p }

  function LfsRemove(fs: Fs, p: string): (r: RemoveResult)
    ensures r.Removed? ==> r.fs.files == fs.files - {p} && r.fs.dirs <= fs.dirs
  {
    if p in fs.files then Removed(fs.(files := fs.files - {p}))
    else if p in fs.dirs then
      if exists q :: q in fs.files.Keys + fs.dirs && IsPrefix(p + "/", q) then NotEmpty
      else Removed(fs.(dirs := fs.dirs - {p}))
    else NoEnt
  }

  /** `remove`'s loop: removes the first `k` components' path, then its parent, until one is missing or not empty. */
  function RemoveChain(fs: Fs, parts: seq<string>, k: nat): Fs
    requires k <= |parts|
    decreases k
  {
    if k == 0 then fs
    else
      match LfsRemove(fs, JoinPath(parts[..k]))
      case Removed(fs') => RemoveChain(fs', parts, k - 1)
      case _ => fs
  }

  /** One step of the chain: the path of the first `k` components is removed, or the chain stops. */
  lemma RemoveChainStep(fs: Fs, parts: seq<string>, k: nat)
    requires 0 < k <= |parts|
    ensures var r := LfsRemove(fs, JoinPath(parts[..k]));
            && (r.Removed? ==> RemoveChain(fs, parts, k) == RemoveChain(r.fs, parts, k - 1))
            && (!r.Removed? ==> RemoveChain(fs, parts, k) == fs)
  {
  }

  /** Cutting the last component and its separator off the path of `k` components gives the path of `k - 1`. */
  lemma DropLastComponent(parts: seq<string>, k: nat)
    requires 0 < k <= |parts|
    ensures var path := JoinPath(parts[..k]);
            && |path| >= |parts[k - 1]| + 1
            && path[..|path| - |parts[k - 1]|][..|path| - |parts[k - 1]| - 1] == JoinPath(parts[..k - 1])
  {
    var p := JoinPath(parts[..k - 1]);
    assert parts[..k][..k - 1] == parts[..k - 1];
    assert JoinPath(parts[..k]) == p + "/" + parts[k - 1];
  }

  /** `remove` on a mounted volume: it only deletes, and every file it keeps keeps its content. */
  function RemoveFs(fs: Fs, key: seq<KeyByte>): (r: Fs)
    ensures r.dirs <= fs.dirs
    ensures forall q :: q in r.files ==> q in fs.files && r.files[q] == fs.files[q]
  {
    RemoveChainOnlyDeletes(fs, PartsOf(key), |PartsOf(key)|);
    RemoveChain(fs, PartsOf(key), |PartsOf(key)|)
  }

  lemma {:induction false} RemoveChainOnlyDeletes(fs: Fs, parts: seq<string>, k: nat)
    requires k <= |parts|
    ensures var r := RemoveChain(fs, parts, k);
            && r.dirs <= fs.dirs
            && (forall q :: q in r.files ==> q in fs.files && r.files[q] == fs.files[q])
    decreases k
  {
    if k > 0 {
      match LfsRemove(fs, JoinPath(parts[..k]))
      case Removed(fs') => RemoveChainOnlyDeletes(fs', parts, k - 1);
      case _ =>
    }
  }

  /**
   * After `remove` of a key whose path is not a directory, `exists` and `get`
   * no longer find it, and every other file keeps its content.
   */
  lemma RemoveDeletesKey(fs: Fs, key: seq<KeyByte>)
    requires PathOf(key) !in fs.dirs
    ensures var r := RemoveFs(fs, key);
            && !ExistsFs(r, key)
            && GetFs(r, key).1 == EIo
            && (forall q :: q in r.files ==> q in fs.files && r.files[q] == fs.files[q])
  {
    var parts := PartsOf(key);
    PartsOfSpec(key);
    var n := |parts|;
    assert parts[..n] == parts;
    var r := RemoveFs(fs, key);
    match LfsRemove(fs, JoinPath(parts))
    case Removed(fs') =>
      RemoveChainOnlyDeletes(fs', parts, n - 1);
    case NoEnt =>
    case NotEmpty =>
  }

  // ---------------------------------------------------------------------------
  // The store object
  // ---------------------------------------------------------------------------

  /** The results the littlefs calls of `mount` return: file creation, mount, format, remount. */
  datatype MountIo = MountIo(created: bool, mounted: bool, formatted: bool, remounted: bool)

  /** The results of `lfs_unmount` and `lfs_filebd_destroy`. */
  datatype UMountIo = UMountIo(unmounted: bool, destroyed: bool)

  const BlockSize: nat := 4096

  /** `bd_size_ / 4096` narrowed to `uint32_t`. */
  function BlockCount(bdSize: nat): (r: nat)
    ensures r < Pow32
    ensures bdSize < BlockSize ==> r == 0
  {
    (bdSize / BlockSize) % Pow32
  }

  /** `mount` as a function of the flag and the littlefs results: the new flag, the volume and the error. */
  function MountSpec(mountPoint: string, bdSize: nat, isMounted: bool, fs: Fs, force: bool, io: MountIo): (r: (bool, Fs, Err))
    ensures mountPoint == [] ==> r == (isMounted, fs, EInval)
    ensures mountPoint != [] && isMounted ==> r == (true, fs, Ok)
    ensures mountPoint != [] && !isMounted && BlockCount(bdSize) == 0 ==> r == (false, fs, EInval)
    ensures r.2 == Ok <==> r.0 && mountPoint != []
    ensures r.2 != Ok ==> r.0 == isMounted
  {
    if mountPoint == [] then (isMounted, fs, EInval)
    else if isMounted then (true, fs, Ok)
    else if BlockCount(bdSize) == 0 then (false, fs, EInval)
    else if !io.created then (false, fs, EIo)
    else if io.mounted then (true, fs, Ok)
    else if !force then (false, fs, EIo)
    else if !io.formatted then (false, fs, EIo)
    else if !io.remounted then (false, Fs(map[], {}), EIo)
    else (true, Fs(map[], {}), Ok)
  }

  /** A successful mount, repeated, succeeds again and changes nothing. */
  lemma MountIdempotent(mountPoint: string, bdSize: nat, isMounted: bool, fs: Fs, force: bool, io: MountIo, io2: MountIo)
    requires MountSpec(mountPoint, bdSize, isMounted, fs, force, io).2 == Ok
    ensures var (m, fs', _) := MountSpec(mountPoint, bdSize, isMounted, fs, force, io);
            MountSpec(mountPoint, bdSize, m, fs', force, io2) == (m, fs', Ok)
  {
  }

  /** Only a forced mount of an unreadable volume erases it. */
  lemma MountErasesOnlyWhenForced(mountPoint: string, bdSize: nat, isMounted: bool, fs: Fs, force: bool, io: MountIo)
    ensures var r := MountSpec(mountPoint, bdSize, isMounted, fs, force, io);
            r.1 != fs ==> force && !isMounted && !io.mounted && io.formatted && r.1 == Fs(map[], {})
  {
  }

  class Store {
    var isMounted: bool
    /** The littlefs volume the store reads and writes. */
    var fs: Fs
    const mountPoint: string
    const bdSize: nat

    /**
     * A store over the image file `mountPoint` of `bdSize` bytes, which
     * starts unmounted and then mounts itself; a failed mount leaves it
     * unmounted.
     */
    constructor (mountPoint: string, bdSize: nat, fs: Fs, force: bool, io: MountIo)
      ensures (isMounted, this.fs) == (MountSpec(mountPoint, bdSize, false, fs, force, io).0, MountSpec(mountPoint, bdSize, false, fs, force, io).1)
      ensures this.mountPoint == mountPoint && this.bdSize == bdSize
    {
      this.mountPoint := mountPoint;
      this.bdSize := bdSize;
      this.fs := fs;
      isMounted := false;
      new;
      var _ := Mount(force, io);
    }

    method Mount(force: bool, io: MountIo) returns (err: Err)
      modifies this
      ensures (isMounted, fs, err) == MountSpec(mountPoint, bdSize, old(isMounted), old(fs), force, io)
    {
      if mountPoint == [] {
        return EInval;
      }
      if isMounted {
        return Ok;
      }
      var blockCount := (bdSize / BlockSize) % Pow32;
      if blockCount == 0 {
        return EInval;
      }
      if !io.created {
        return EIo;
      }
      var ok := io.mounted;
      if force && !ok {
        if !io.formatted {
          return EIo;
        }
        fs := Fs(map[], {});
        ok := io.remounted;
      }
      if !ok {
        return EIo;
      }
      isMounted := true;
      err := Ok;
    }

    method UMount(io: UMountIo) returns (err: Err)
      modifies this
      ensures !old(isMounted) ==> err == Ok && !isMounted
      ensures old(isMounted) ==> (err == Ok <==> io.unmounted && io.destroyed)
      ensures err == Ok ==> !isMounted
      ensures err != Ok ==> isMounted == old(isMounted)
      ensures fs == old(fs)
    {
      if !isMounted {
        return Ok;
      }
      if !io.unmounted {
        return EIo;
      }
      if !io.destroyed {
        return EIo;
      }
      isMounted := false;
      err := Ok;
    }

    /** The path loop shared by `getImpl`, `exists` and `remove`. */
    static method BuildPath(parts: seq<string>) returns (path: string)
      ensures path == JoinPath(parts)
    {
      path := "";
      for i := 0 to |parts|
        invariant path == JoinPath(parts[..i])
      {
        assert parts[..i + 1][..i] == parts[..i];
        path := path + "/" + parts[i];
      }
      assert parts[..|parts|] == parts;
    }

    /** `setImpl`, with the path and write meant for it. */
    method Set(key: seq<KeyByte>, data: seq<bv8>) returns (err: Err)
      modifies this
      ensures isMounted == old(isMounted)
      ensures !isMounted ==> err == EPerm && fs == old(fs)
      ensures isMounted ==> (fs, err) == SetFs(old(fs), key, data)
    {
      if !isMounted {
        return EPerm;
      }
      var parts := KeyToPath(key, 16);
      MakeParentDirs(parts);
      var path := BuildPath(parts);
      if path in fs.dirs {
        return EIo;
      }
      fs := fs.(files := fs.files[path := data]);
      err := Ok;
    }

    /** The `lfs_mkdir` loop of `setImpl`, over every proper ancestor of the file. */
    method MakeParentDirs(parts: seq<string>)
      modifies this
      ensures isMounted == old(isMounted)
      ensures fs == MakeDirs(old(fs), SetDirs(parts))
    {
      ghost var dirs := SetDirs(parts);
      var i := 0;
      while i + 1 < |parts|
        invariant isMounted == old(isMounted)
        invariant 0 <= i <= |dirs| && |dirs| == (if parts == [] then 0 else |parts| - 1)
        invariant fs == MakeDirs(old(fs), dirs[..i])
      {
        var path := BuildPath(parts[..i + 1]);
        assert dirs[..i + 1] == dirs[..i] + [path];
        if !(path in fs.files || path in fs.dirs) {
          fs := fs.(dirs := fs.dirs + {path});
        }
        i := i + 1;
      }
      assert dirs[..i] == dirs;
    }

    /** `getImpl`: appends the file to `buffer`, reading `chunkSize` bytes at a time. */
    method Get(key: seq<KeyByte>, buffer: seq<bv8>, chunkSize: nat) returns (out: seq<bv8>, err: Err)
      requires chunkSize > 0
      ensures !isMounted ==> err == EPerm && out == buffer
      ensures isMounted ==> err == GetFs(fs, key).1 && out == buffer + GetFs(fs, key).0
    {
      if !isMounted {
        return buffer, EPerm;
      }
      var parts := KeyToPath(key, 16);
      var path := BuildPath(parts);
      if path !in fs.files {
        return buffer, EIo;
      }
      var content := fs.files[path];
      out := buffer;
      var pos: nat := 0;
      var read := chunkSize;
      while read == chunkSize
        invariant pos <= |content|
        invariant out == buffer + content[..pos]
        invariant read != chunkSize ==> pos == |content|
        decreases |content| - pos + (if read == chunkSize then 1 else 0)
      {
        read := if |content| - pos < chunkSize then |content| - pos else chunkSize;
        out := out + content[pos..pos + read];
        pos := pos + read;
      }
      assert content[..pos] == content;
      err := Ok;
    }

    method Exists(key: seq<KeyByte>) returns (b: bool)
      ensures b <==> isMounted && ExistsFs(fs, key)
    {
      if !isMounted {
        return false;
      }
      var parts := KeyToPath(key, 16);
      var path := BuildPath(parts);
      b := path in fs.files || path in fs.dirs;
    }

    /** `remove`: the key's file, then each emptied parent directory. */
    method Remove(key: seq<KeyByte>) returns (err: Err)
      modifies this
      ensures isMounted == old(isMounted)
      ensures !isMounted ==> err == EPerm && fs == old(fs)
      ensures isMounted ==> err == Ok && fs == RemoveFs(old(fs), key)
    {
      if !isMounted {
        return EPerm;
      }
      var parts := KeyToPath(key, 16);
      var path := BuildPath(parts);
      ghost var target := RemoveChain(fs, parts, |parts|);
      var k := |parts|;
      assert parts[..k] == parts;
      while k > 0
        invariant isMounted
        invariant k <= |parts|
        invariant path == JoinPath(parts[..k])
        invariant RemoveChain(fs, parts, k) == target
      {
        var r := LfsRemove(fs, path);
        RemoveChainStep(fs, parts, k);
        if r.NoEnt? || r.NotEmpty? {
          break;
        }
        fs := r.fs;
        DropLastComponent(parts, k);
        path := path[..|path| - |parts[k - 1]|];
        path := path[..|path| - 1];
        k := k - 1;
      }
      err := Ok;
    }

    /**
     * A typed `get` of a `size`-byte value: the stored bytes when the read
     * succeeds and has exactly `size` bytes, otherwise `default`.
     */
    method GetTyped(key: seq<KeyByte>, size: nat, default: seq<bv8>) returns (value: seq<bv8>, err: Err)
      ensures err == Ok <==> isMounted && GetFs(fs, key).1 == Ok && |GetFs(fs, key).0| == size
      ensures err == Ok ==> value == GetFs(fs, key).0
      ensures err != Ok ==> value == default
      ensures !isMounted ==> err == EPerm
      ensures isMounted && GetFs(fs, key).1 != Ok ==> err == GetFs(fs, key).1
      ensures isMounted && GetFs(fs, key).1 == Ok && |GetFs(fs, key).0| != size ==> err == EInval
    {
      var buffer, e := Get(key, [], 128);
      if e != Ok {
        return default, e;
      }
      if |buffer| != size {
        return default, EInval;
      }
      value, err := buffer, Ok;
    }

    /** The `std::string` `get`: appends the file to `value`, or replaces `value` by `default` on failure. */
    method GetString(key: seq<KeyByte>, value: seq<bv8>, default: seq<bv8>) returns (out: seq<bv8>, err: Err)
      ensures err == Ok <==> isMounted && GetFs(fs, key).1 == Ok
      ensures err == Ok ==> out == value + GetFs(fs, key).0
      ensures err != Ok ==> out == default
      ensures !isMounted ==> err == EPerm
      ensures isMounted && GetFs(fs, key).1 != Ok ==> err == GetFs(fs, key).1
    {
      out, err := Get(key, value, 128);
      if err != Ok {
        out := default;
      }
    }

    /** The `char*` `get` is refused outright. */
    method GetCString(key: seq<KeyByte>) returns (err: Err)
      ensures err == ENotSup
    {
      err := ENotSup;
    }
  }
}
