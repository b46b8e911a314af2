/** Quarantined files carry their restore destination in their own name,
    `<unix time>__<percent-encoded path>`. */
module Quarantine {
  import opened Text
  import opened Utf8
  import opened Validators

  // ----- The percent codec ------------------------------------------------

  predicate Unreserved(b: byte) {
    || 48 <= b <= 57 || 65 <= b <= 90 || 97 <= b <= 122
    || b == 45 || b == 46 || b == 95 || b == 126
  }

  function HexDigit(n: int): char
    requires 0 <= n < 16
  {
    if n < 10 then (48 + n) as char else (55 + n) as char
  }

  function EncodeByte(b: byte): string {
    if Unreserved(b) then [b as char] else ['%', HexDigit(b / 16), HexDigit(b % 16)]
  }

  function EncodeBytes(bs: seq<byte>): string {
    if bs == [] then [] else EncodeByte(bs[0]) + EncodeBytes(bs[1..])
  }

  function PercentEncode(s: string): string { EncodeBytes(Encode(s)) }

  method ComputePercentEncode(input: string) returns (out: string)
    ensures out == PercentEncode(input)
  {
    out := [];
    var bytes := Encode(input);
    for i := 0 to |bytes|
      invariant out + EncodeBytes(bytes[i..]) == EncodeBytes(bytes)
    {
      assert bytes[i..][1..] == bytes[i + 1..];
      Reassociate(out, EncodeByte(bytes[i]), EncodeBytes(bytes[i + 1..]));
      out := out + EncodeByte(bytes[i]);
    }
  }

  function HexValue(b: byte): Option<int> {
    if 48 <= b <= 57 then Some(b - 48) else
    if 65 <= b <= 70 then Some(b - 55) else
    if 97 <= b <= 102 then Some(b - 87) else None
  }

  /** `u8::from_str_radix` on two characters; it allows a leading plus sign. */
  function ReadHex(b0: byte, b1: byte): Option<byte> {
    match (HexValue(b0), HexValue(b1))
    case (Some(hi), Some(lo)) => Some(hi * 16 + lo)
    case (None, Some(lo)) => if b0 == 43 then Some(lo) else None
    case _ => None
  }

  function DecodeBytes(bs: seq<byte>): Option<seq<byte>>
    decreases |bs|
  {
    if bs == [] then Some([])
    else if bs[0] != 37 then Cons(bs[0], DecodeBytes(bs[1..]))
    else if |bs| < 3 then None
    else
      match ReadHex(bs[1], bs[2])
      case None => None
      case Some(v) => Cons(v, DecodeBytes(bs[3..]))
  }

  function Cons(b: byte, rest: Option<seq<byte>>): Option<seq<byte>> {
    if rest.Some? then Some([b] + rest.value) else None
  }

  function PercentDecode(s: string): Option<string> {
    match DecodeBytes(Encode(s))
    case None => None
    case Some(bs) => Decode(bs)
  }

  function Prepend(out: seq<byte>, rest: Option<seq<byte>>): Option<seq<byte>> {
    if rest.Some? then Some(out + rest.value) else None
  }

  lemma PrependCons(out: seq<byte>, b: byte, rest: Option<seq<byte>>)
    ensures Prepend(out, Cons(b, rest)) == Prepend(out + [b], rest)
  {
    if rest.Some? {
      assert out + ([b] + rest.value) == out + [b] + rest.value;
    }
  }

  method ComputePercentDecode(input: string) returns (r: Option<string>)
    ensures r == PercentDecode(input)
  {
    var bytes := Encode(input);
    var out: seq<byte> := [];
    var i := 0;
    assert bytes[0..] == bytes;
    assert forall rest: seq<byte> :: [] + rest == rest;
    while i < |bytes|
      invariant 0 <= i <= |bytes|
      invariant DecodeBytes(bytes) == Prepend(out, DecodeBytes(bytes[i..]))
    {
      if bytes[i] == 37 {
        if i + 2 >= |bytes| {
          return None;
        }
        var value := ReadHex(bytes[i + 1], bytes[i + 2]);
        if value.None? {
          return None;
        }
        assert bytes[i..][3..] == bytes[i + 3..];
        PrependCons(out, value.value, DecodeBytes(bytes[i + 3..]));
        out := out + [value.value];
        i := i + 3;
      } else {
        assert bytes[i..][1..] == bytes[i + 1..];
        PrependCons(out, bytes[i], DecodeBytes(bytes[i + 1..]));
        out := out + [bytes[i]];
        i := i + 1;
      }
    }
    assert out + [] == out;
    r := Decode(out);
  }

  lemma HexRoundTrip(b: byte)
    ensures IsAscii(HexDigit(b / 16)) && IsAscii(HexDigit(b % 16))
    ensures ReadHex(HexDigit(b / 16) as int, HexDigit(b % 16) as int) == Some(b)
  {
  }

  lemma {:induction false} DecodeEncodeBytes(bs: seq<byte>)
    ensures DecodeBytes(Encode(EncodeBytes(bs))) == Some(bs)
  {
    if bs == [] {
    } else {
      var head, rest := EncodeByte(bs[0]), EncodeBytes(bs[1..]);
      DecodeEncodeBytes(bs[1..]);
      HexRoundTrip(bs[0]);
      EncodeConcat(head, rest);
      EncodeAscii(head);
      var code := Encode(head + rest);
      assert code == Encode(head) + Encode(rest);
      assert code[|head|..] == Encode(rest);
      assert bs == [bs[0]] + bs[1..];
    }
  }

  /** Decoding undoes encoding for every string, Unix or Windows path alike. */
  lemma PercentRoundTrip(s: string)
    ensures PercentDecode(PercentEncode(s)) == Some(s)
  {
    DecodeEncodeBytes(Encode(s));
    DecodeEncode(s);
  }

  // ----- Filenames --------------------------------------------------------

  function Filename(timestamp: nat, path: string): string {
    Decimal(timestamp) + "__" + PercentEncode(path)
  }

  /** The first `__`, or the length when there is none. */
  function FindMark(s: string): (i: nat)
    ensures i <= |s|
    ensures i < |s| ==> i + 2 <= |s|
  {
    if |s| < 2 then |s| else if s[0] == '_' && s[1] == '_' then 0 else 1 + FindMark(s[1..])
  }

  lemma {:induction false} FindMarkAfterDigits(d: string, rest: string)
    requires forall i :: 0 <= i < |d| ==> IsDigit(d[i])
    ensures FindMark(d + "__" + rest) == |d|
  {
    if d == [] {
      assert d + "__" + rest == "__" + rest;
    } else {
      assert (d + "__" + rest)[1..] == d[1..] + "__" + rest;
      FindMarkAfterDigits(d[1..], rest);
    }
  }

  /** What `split_once("__")` keeps on the right. */
  function EncodedPart(name: string): Option<string> {
    var i := FindMark(name);
    if i == |name| then None else Some(name[i + 2..])
  }

  lemma EncodedPartOfFilename(timestamp: nat, path: string)
    ensures EncodedPart(Filename(timestamp, path)) == Some(PercentEncode(path))
  {
    FindMarkAfterDigits(Decimal(timestamp), PercentEncode(path));
  }

  /** No two quarantines at different times or of different paths share a name. */
  lemma FilenameInjective(t1: nat, p1: string, t2: nat, p2: string)
    requires Filename(t1, p1) == Filename(t2, p2)
    ensures t1 == t2 && p1 == p2
  {
    EncodedPartOfFilename(t1, p1);
    EncodedPartOfFilename(t2, p2);
    PercentRoundTrip(p1);
    PercentRoundTrip(p2);
    var n := Filename(t1, p1);
    assert n[..|n| - |PercentEncode(p1)| - 2] == Decimal(t1);
    assert n[..|n| - |PercentEncode(p1)| - 2] == Decimal(t2);
    DecimalInjective(t1, t2);
  }

  // ----- When the validator accepts a name --------------------------------

  predicate Plain(c: char) {
    !IsControl(c) && c != '/' && c != '\\' && IsAscii(c)
  }

  lemma {:induction false} EncodeBytesPlain(bs: seq<byte>)
    ensures forall i :: 0 <= i < |EncodeBytes(bs)| ==> Plain(EncodeBytes(bs)[i])
  {
    if bs == [] {
    } else {
      EncodeBytesPlain(bs[1..]);
    }
  }

  lemma {:induction false} EncodeBytesConcat(a: seq<byte>, b: seq<byte>)
    ensures EncodeBytes(a + b) == EncodeBytes(a) + EncodeBytes(b)
  {
    if a == [] {
      assert a + b == b;
    } else {
      assert (a + b)[1..] == a[1..] + b;
      EncodeBytesConcat(a[1..], b);
    }
  }

  lemma {:induction false} EncodeBytesNoDot(bs: seq<byte>)
    requires forall i :: 0 <= i < |bs| ==> bs[i] != 46
    ensures '.' !in EncodeBytes(bs)
  {
    if bs == [] {
    } else {
      EncodeBytesNoDot(bs[1..]);
    }
  }

  predicate StartsWithDot(s: string) { s != [] && s[0] == '.' }

  lemma DotDotAfterDot(x: string)
    ensures HasDotDot(['.'] + x) <==> StartsWithDot(x) || HasDotDot(x)
  {
    var s := ['.'] + x;
    if StartsWithDot(x) {
      assert s[0] == '.' && s[1] == '.';
    }
    if HasDotDot(x) {
      var i :| 0 <= i <= |x| - 2 && x[i] == '.' && x[i + 1] == '.';
      assert s[i + 1] == '.' && s[i + 2] == '.';
    }
    if HasDotDot(s) {
      var i :| 0 <= i <= |s| - 2 && s[i] == '.' && s[i + 1] == '.';
      if i == 0 {
        assert x[0] == '.';
      } else {
        assert x[i - 1] == '.' && x[i] == '.';
      }
    }
  }

  lemma DotDotAfterOther(a: string, x: string)
    requires '.' !in a
    ensures HasDotDot(a + x) <==> HasDotDot(x)
  {
    var s := a + x;
    if HasDotDot(x) {
      var i :| 0 <= i <= |x| - 2 && x[i] == '.' && x[i + 1] == '.';
      assert s[i + |a|] == '.' && s[i + |a| + 1] == '.';
    }
    if HasDotDot(s) {
      var i :| 0 <= i <= |s| - 2 && s[i] == '.' && s[i + 1] == '.';
      assert forall k :: 0 <= k < |a| ==> s[k] != '.';
      assert x[i - |a|] == '.' && x[i - |a| + 1] == '.';
    }
  }

  lemma EncodeCharHead(path: string)
    requires path != []
    ensures PercentEncode(path) == EncodeBytes(EncodeChar(path[0])) + PercentEncode(path[1..])
    ensures path[0] == '.' ==> EncodeBytes(EncodeChar(path[0])) == ['.']
    ensures path[0] != '.' ==> '.' !in EncodeBytes(EncodeChar(path[0])) && EncodeBytes(EncodeChar(path[0])) != []
  {
    EncodeBytesConcat(EncodeChar(path[0]), Encode(path[1..]));
    if path[0] != '.' {
      EncodeBytesNoDot(EncodeChar(path[0]));
    }
  }

  /** Encoding neither hides nor creates a `..`. */
  lemma {:induction false} EncodingKeepsDotDot(path: string)
    ensures HasDotDot(PercentEncode(path)) <==> HasDotDot(path)
    ensures StartsWithDot(PercentEncode(path)) <==> StartsWithDot(path)
  {
    if path == [] {
    } else {
      var rest := PercentEncode(path[1..]);
      EncodingKeepsDotDot(path[1..]);
      EncodeCharHead(path);
      assert path == [path[0]] + path[1..];
      if path[0] == '.' {
        DotDotAfterDot(path[1..]);
        DotDotAfterDot(rest);
      } else {
        DotDotAfterOther([path[0]], path[1..]);
        DotDotAfterOther(EncodeBytes(EncodeChar(path[0])), rest);
      }
    }
  }

  /** The name of a quarantined path passes the filename validator exactly when
      the path has no `..` and the name is not too long. */
  lemma FilenameAccepted(timestamp: nat, path: string)
    ensures IsValidQuarantineFilename(Filename(timestamp, path)) <==>
            !HasDotDot(path) && ByteLen(Filename(timestamp, path)) <= 4096
  {
    var d, e := Decimal(timestamp), PercentEncode(path);
    var name := d + "__" + e;
    EncodeBytesPlain(Encode(path));
    assert forall i :: 0 <= i < |d| ==> Plain(d[i]);
    assert forall i :: 0 <= i < |name| ==> Plain(name[i]);
    assert '.' !in d + "__";
    DotDotAfterOther(d + "__", e);
    EncodingKeepsDotDot(path);
  }

  // ----- Quarantine and restore -------------------------------------------

  /** Where a restore would put the file, `None` when it is refused. */
  function RestoreTarget(validPath: string -> bool, name: string): Option<string> {
    if !IsValidQuarantineFilename(name) then None else
      match EncodedPart(name)
      case None => None
      case Some(encoded) =>
        match PercentDecode(encoded)
        case None => None
        case Some(path) => if validPath(path) then Some(path) else None
  }

  /** For every path the quarantine accepts, on either platform, a restore
      resolves to exactly that path, unless the path holds a `..` or the name is
      too long, and then it is refused. */
  lemma RestoreTargetExactly(validPath: string -> bool, timestamp: nat, path: string)
    requires validPath(path)
    ensures RestoreTarget(validPath, Filename(timestamp, path)) ==
            if !HasDotDot(path) && ByteLen(Filename(timestamp, path)) <= 4096 then Some(path) else None
  {
    FilenameAccepted(timestamp, path);
    EncodedPartOfFilename(timestamp, path);
    PercentRoundTrip(path);
  }

  /** An accepted Unix path that can be quarantined and never restored. */
  lemma DotDotPathIsStranded(timestamp: nat)
    ensures IsValidAbsolutePath("/a..b")
    ensures RestoreTarget(IsValidAbsolutePath, Filename(timestamp, "/a..b")) == None
  {
    EncodeAscii("/a..b");
    assert "/a..b"[2] == '.' && "/a..b"[3] == '.';
    RestoreTargetExactly(IsValidAbsolutePath, timestamp, "/a..b");
  }

  /** Dots inside a longer segment. */
  lemma WindowsDotDotPath(drive: char, a: char, b: char) returns (path: string)
    requires IsUpper(drive) && IsLower(a) && IsLower(b)
    ensures path == [drive, ':', '\\', a, '.', '.', b]
    ensures IsValidWindowsAbsolutePath(path) && HasDotDot(path)
  {
    path := [drive, ':', '\\', a, '.', '.', b];
    EncodeAscii(path);
    assert path[4] == '.' && path[4 + 1] == '.';
    assert NoDotDotSegment(path) by {
      assert forall i :: 0 <= i <= |path| - 2 && path[i] == '.' && path[i + 1] == '.' ==> i == 4;
      assert path[4 - 1] == a && a !in "\\/";
    }
  }

  /** The same on Windows, where only a segment that is exactly `..` is refused:
      `C:\a..b` is accepted. */
  lemma WindowsDotDotPathIsStranded(timestamp: nat) returns (path: string)
    ensures IsValidWindowsAbsolutePath(path)
    ensures RestoreTarget(IsValidWindowsAbsolutePath, Filename(timestamp, path)) == None
  {
    path := WindowsDotDotPath('C', 'a', 'b');
    RestoreTargetExactly(IsValidWindowsAbsolutePath, timestamp, path);
  }

  const DIRECTORY := "/var/lib/" + "abyssal-arsenal/" + "quarantine"

  function Slot(name: string): string { DIRECTORY + "/" + name }

  /** Files by path; a move replaces whatever is at the destination. */
  function Move<F>(files: map<string, F>, src: string, dest: string): map<string, F>
    requires src in files
  {
    (files - {src})[dest := files[src]]
  }

  /** The files after a quarantine, and the name it gave. `madeDir` and `moved`
      are the outcomes of `mkdir -p` and `mv`; a move of a missing file fails. */
  function QuarantineSpec<F>(files: map<string, F>, path: string, timestamp: nat, madeDir: bool, moved: bool)
    : (map<string, F>, Option<string>)
  {
    if IsValidAbsolutePath(path) && madeDir && moved && path in files
    then (Move(files, path, Slot(Filename(timestamp, path))), Some(Filename(timestamp, path)))
    else (files, None)
  }

  /** The files after a restore, and where the file went. */
  function RestoreSpec<F>(files: map<string, F>, name: string, moved: bool): (map<string, F>, Option<string>) {
    var target := RestoreTarget(IsValidAbsolutePath, name);
    if moved && Slot(name) in files && target.Some? then (Move(files, Slot(name), target.value), target)
    else (files, None)
  }

  class Host<F> {
    var files: map<string, F>

    constructor (files: map<string, F>)
      ensures this.files == files
    {
      this.files := files;
    }

    method QuarantineFile(path: string, timestamp: nat, madeDir: bool, moved: bool)
      returns (name: Option<string>)
      modifies this
      ensures (files, name) == QuarantineSpec(old(files), path, timestamp, madeDir, moved)
    {
      if !IsValidAbsolutePath(path) || !madeDir || !moved || path !in files {
        return None;
      }
      var encoded := ComputePercentEncode(path);
      var filename := Decimal(timestamp) + "__" + encoded;
      files := Move(files, path, Slot(filename));
      name := Some(filename);
    }

    method RestoreQuarantinedFile(name: string, moved: bool) returns (target: Option<string>)
      modifies this
      ensures (files, target) == RestoreSpec(old(files), name, moved)
    {
      if !IsValidQuarantineFilename(name) {
        return None;
      }
      var encoded := EncodedPart(name);
      if encoded.None? {
        return None;
      }
      var decoded := ComputePercentDecode(encoded.value);
      if decoded.None? || !IsValidAbsolutePath(decoded.value) || !moved || Slot(name) !in files {
        return None;
      }
      files := Move(files, Slot(name), decoded.value);
      target := decoded;
    }
  }

  lemma {:induction false} EncodeBytesLonger(bs: seq<byte>)
    ensures |EncodeBytes(bs)| >= |bs|
  {
    if bs == [] {
    } else {
      EncodeBytesLonger(bs[1..]);
    }
  }

  lemma SlotIsElsewhere(timestamp: nat, path: string)
    ensures Slot(Filename(timestamp, path)) != path
  {
    EncodeBytesLonger(Encode(path));
    ByteLenAtLeast(path);
    assert |Slot(Filename(timestamp, path))| > |path|;
  }

  /** After every successful quarantine, restoring under the name it gave brings
      every file back as it was exactly when the path holds no `..`, the name is
      not too long, and no file was already in the slot. */
  lemma RestoreUndoesQuarantine<F>(files: map<string, F>, timestamp: nat, path: string)
    requires QuarantineSpec(files, path, timestamp, true, true).1.Some?
    ensures var (held, name) := QuarantineSpec(files, path, timestamp, true, true);
            var slot := Slot(name.value);
            RestoreSpec(held, name.value, true) == (files, Some(path)) <==>
            !HasDotDot(path) && ByteLen(name.value) <= 4096 && slot !in files
  {
    var (held, name) := QuarantineSpec(files, path, timestamp, true, true);
    var slot := Slot(name.value);
    RestoreTargetExactly(IsValidAbsolutePath, timestamp, path);
    SlotIsElsewhere(timestamp, path);
    MoveAndBack(files, path, slot);
  }

  lemma MoveAndBack<F>(files: map<string, F>, path: string, slot: string)
    requires path in files && slot != path
    ensures Move(Move(files, path, slot), slot, path) == files <==> slot !in files
  {
    var back := Move(Move(files, path, slot), slot, path);
    assert back == files - {slot};
    if slot in files {
      assert slot !in back;
    }
  }

  // ----- What one call does -----------------------------------------------

  /** No other file is touched. */
  ghost predicate OnlyMoved<F(!new)>(files: map<string, F>, after: map<string, F>, src: string, dest: string)
    requires src in files
  {
    && dest in after && after[dest] == files[src] && (src != dest ==> src !in after)
    && forall p :: p != src && p != dest ==> (p in after <==> p in files) && (p in files ==> after[p] == files[p])
  }

  /** A quarantine moves the file exactly when the path is valid, the file is
      there and both commands work, to a name that decodes to the path. */
  lemma QuarantinesExactly<F(!new)>(files: map<string, F>, path: string, timestamp: nat, madeDir: bool, moved: bool)
    ensures var (after, name) := QuarantineSpec(files, path, timestamp, madeDir, moved);
            && (name.Some? <==> IsValidAbsolutePath(path) && path in files && madeDir && moved)
            && (name.None? ==> after == files)
            && (name.Some? ==>
                  && OnlyMoved(files, after, path, "/var/lib/" + "abyssal-arsenal/" + "quarantine" + "/" + name.value)
                  && path !in after
                  && EncodedPart(name.value).Some? && PercentDecode(EncodedPart(name.value).value) == Some(path))
  {
    SlotIsElsewhere(timestamp, path);
    EncodedPartOfFilename(timestamp, path);
    PercentRoundTrip(path);
  }

  /** A restore moves the file exactly when the name is valid and what follows
      its mark decodes to a valid path, the file is there, and the move works. */
  lemma RestoresExactly<F(!new)>(files: map<string, F>, name: string, moved: bool, path: string)
    ensures var (after, target) := RestoreSpec(files, name, moved);
            var slot := DIRECTORY + "/" + name;
            && (target == Some(path) <==>
                && moved && slot in files && IsValidQuarantineFilename(name) && IsValidAbsolutePath(path)
                && EncodedPart(name).Some? && PercentDecode(EncodedPart(name).value) == Some(path))
            && (target == Some(path) ==> OnlyMoved(files, after, slot, path))
            && (target.None? ==> after == files)
  {
  }

  predicate MarkAt(s: string, i: nat) { i + 2 <= |s| && s[i] == '_' && s[i + 1] == '_' }

  /** The encoded part is what follows the first double underscore. */
  lemma {:induction false} EncodedPartExactly(name: string, i: nat)
    requires forall j: nat :: j < i ==> !MarkAt(name, j)
    ensures MarkAt(name, i) ==> EncodedPart(name) == Some(name[i + 2..])
    ensures i == |name| ==> EncodedPart(name) == None
  {
    FindMarkExactly(name, i);
  }

  lemma {:induction false} FindMarkExactly(s: string, i: nat)
    requires i <= |s| ==> forall j: nat :: j < i ==> !MarkAt(s, j)
    ensures MarkAt(s, i) || i == |s| ==> FindMark(s) == i
  {
    if i == 0 || i > |s| || |s| < 2 {
    } else {
      assert !MarkAt(s, 0);
      assert forall j: nat :: j < i - 1 ==> (MarkAt(s[1..], j) <==> MarkAt(s, j + 1));
      assert MarkAt(s[1..], i - 1) <==> MarkAt(s, i);
      FindMarkExactly(s[1..], i - 1);
    }
  }

  /** The characters that are left as they are. */
  lemma UnreservedExactly(c: char)
    ensures PercentEncode([c]) == [c] <==> IsAlphanumeric(c) || c in "-._~"
  {
    EncodeOne(c);
    EncodeBytesLonger(Encode([c]));
    if IsAscii(c) {
      EncodeAscii([c]);
      assert Encode([c]) == [c as int] && [c as int][1..] == [];
    }
  }

  lemma EncodeOne(c: char)
    ensures Encode([c]) == EncodeChar(c)
  {
    assert [c][1..] == [];
  }

  /** Either letter case of a hexadecimal digit, as a byte. */
  predicate IsHex(b: byte, n: int) {
    0 <= n < 16 && ((n < 10 && b == 48 + n) || (n >= 10 && (b == 55 + n || b == 87 + n)))
  }

  /** Two digits after a percent sign, in either case, are one byte, and so is a
      plus sign and one digit, which the number parser lets through. */
  lemma EscapesDecode(h: byte, l: byte, hi: int, lo: int, rest: seq<byte>)
    requires IsHex(l, lo) && (IsHex(h, hi) || (h == 43 && hi == 0))
    ensures DecodeBytes([37, h, l] + rest) == Cons(hi * 16 + lo, DecodeBytes(rest))
  {
    assert ([37, h, l] + rest)[3..] == rest;
  }
}
