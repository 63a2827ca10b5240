/** Package signatures: what a package looks like that is accepted (verifier.c). */
module PackageVerifier {
  import opened Bytes

  /*
   The signature of a whole file sits in the comment of the .ZIP file,
   whose end-of-central-directory record (section 4.3.16 of the PKWARE .ZIP File Format
   Specification) must be the last one in the file.
   */

  const FOOTER_SIZE: nat := 6
  const EOCD_HEADER_SIZE: nat := 22
  const RSANUMBYTES: nat := 256
  const BUFFER_SIZE: nat := 4096

  // ---------- the layout of a package

  predicate HasFooter(file: seq<byte>) {
    && |file| >= FOOTER_SIZE
    && file[|file| - 4] == 0xff && file[|file| - 3] == 0xff
  }

  function CommentSize(file: seq<byte>): nat
    requires |file| >= FOOTER_SIZE
  {
    (file[|file| - 2] as int) + 256 * (file[|file| - 1] as int)
  }

  function SignatureStart(file: seq<byte>): nat
    requires |file| >= FOOTER_SIZE
  {
    (file[|file| - 6] as int) + 256 * (file[|file| - 5] as int)
  }

  /** The bytes 50 4b 05 06 at position p. */
  predicate Marker(file: seq<byte>, p: int) {
    && 0 <= p && p + 4 <= |file|
    && file[p] == 0x50 && file[p + 1] == 0x4b && file[p + 2] == 0x05 && file[p + 3] == 0x06
  }

  /** A footer with a large enough signature block, and room for the record it implies. */
  predicate WellFormed(file: seq<byte>) {
    && HasFooter(file)
    && SignatureStart(file) >= RSANUMBYTES + FOOTER_SIZE
    && CommentSize(file) + EOCD_HEADER_SIZE <= |file|
  }

  /** Where the record starts, counted back from the end by the comment size. */
  function Eocd(file: seq<byte>): nat
    requires WellFormed(file)
  {
    |file| - CommentSize(file) - EOCD_HEADER_SIZE
  }

  /** Everything before the comment length field. */
  function Signed(file: seq<byte>): seq<byte>
    requires WellFormed(file)
  {
    file[..Eocd(file) + EOCD_HEADER_SIZE - 2]
  }

  /**
   The signature block: the bytes before the footer in the record's buffer.  With a short
   comment it reaches in front of the buffer, into `memory`.
   */
  function Signature(file: seq<byte>, memory: seq<byte>): seq<byte>
    requires WellFormed(file) && |memory| >= RSANUMBYTES + FOOTER_SIZE
  {
    var all := memory + file[Eocd(file)..];
    all[|all| - FOOTER_SIZE - RSANUMBYTES..|all| - FOOTER_SIZE]
  }

  /** What verification means: no key, hash or layout detail beyond these. */
  ghost predicate Acceptable<Key>(file: seq<byte>, keys: seq<Key>, memory: seq<byte>,
                                  sha: seq<byte> -> seq<byte>, rsa: (Key, seq<byte>, seq<byte>) -> bool)
    requires |memory| >= RSANUMBYTES + FOOTER_SIZE
  {
    && WellFormed(file)
    && Marker(file, Eocd(file))
    && (forall p :: Eocd(file) < p <= |file| - 4 ==> !Marker(file, p))
    && exists i :: 0 <= i < |keys| && rsa(keys[i], Signature(file, memory), sha(Signed(file)))
  }

  /**
   `verify_file`, for a file that can be read.  `sha` hashes what the context has absorbed,
   and `rsa` is RSA_verify.
   */
  method VerifyFile<Key>(file: seq<byte>, keys: seq<Key>, memory: seq<byte>,
                         sha: seq<byte> -> seq<byte>, rsa: (Key, seq<byte>, seq<byte>) -> bool)
    returns (success: bool)
    requires |memory| >= RSANUMBYTES + FOOTER_SIZE
    ensures success <==> Acceptable(file, keys, memory, sha, rsa)
  {
    if |file| < FOOTER_SIZE {
      return false;
    }
    var footer := file[|file| - FOOTER_SIZE..];
    if footer[2] != 0xff || footer[3] != 0xff {
      return false;
    }
    var commentSize := (footer[4] as int) + 256 * (footer[5] as int);
    var signatureStart := (footer[0] as int) + 256 * (footer[1] as int);
    if signatureStart - FOOTER_SIZE < RSANUMBYTES {
      return false;
    }
    var eocdSize := commentSize + EOCD_HEADER_SIZE;
    if eocdSize > |file| {
      return false;
    }
    var signedLength := |file| - eocdSize + EOCD_HEADER_SIZE - 2;
    var eocd := file[|file| - eocdSize..];
    assert WellFormed(file) && eocd == file[Eocd(file)..];
    var only := OnlyMarkerFirst(eocd);
    MarkerInRecord(file, eocd);
    if !only {
      return false;
    }
    var absorbed := Absorb(file, signedLength);
    var digest := sha(absorbed);
    var all := memory + eocd;
    var block := all[|all| - FOOTER_SIZE - RSANUMBYTES..|all| - FOOTER_SIZE];
    for i := 0 to |keys|
      invariant forall k :: 0 <= k < i ==> !rsa(keys[k], block, digest)
    {
      if rsa(keys[i], block, digest) {
        return true;
      }
    }
    return false;
  }

  /**
   The marker check and the scan.  The scan starts at 4; a marker cannot start at 1 to 3,
   inside the first one.
   */
  method OnlyMarkerFirst(eocd: seq<byte>) returns (only: bool)
    requires |eocd| >= EOCD_HEADER_SIZE
    ensures only <==> Marker(eocd, 0) && forall p :: 0 < p <= |eocd| - 4 ==> !Marker(eocd, p)
  {
    if eocd[0] != 0x50 || eocd[1] != 0x4b || eocd[2] != 0x05 || eocd[3] != 0x06 {
      return false;
    }
    var i := 4;
    while i < |eocd| - 3
      invariant 4 <= i <= |eocd| - 3
      invariant forall p :: 4 <= p < i ==> !Marker(eocd, p)
    {
      if eocd[i] == 0x50 && eocd[i + 1] == 0x4b && eocd[i + 2] == 0x05 && eocd[i + 3] == 0x06 {
        assert Marker(eocd, i);
        return false;
      }
      i := i + 1;
    }
    only := true;
  }

  lemma MarkerInRecord(file: seq<byte>, eocd: seq<byte>)
    requires WellFormed(file) && eocd == file[Eocd(file)..]
    ensures forall p :: 0 <= p <= |eocd| - 4 ==> (Marker(eocd, p) <==> Marker(file, Eocd(file) + p))
    ensures (forall p :: 0 < p <= |eocd| - 4 ==> !Marker(eocd, p))
       <==> (forall p :: Eocd(file) < p <= |file| - 4 ==> !Marker(file, p))
  {
    var e := Eocd(file);
    assert forall k :: 0 <= k < |eocd| ==> eocd[k] == file[e + k];
    if forall p :: 0 < p <= |eocd| - 4 ==> !Marker(eocd, p) {
      forall p | e < p <= |file| - 4 ensures !Marker(file, p) {
        assert !Marker(eocd, p - e);
      }
    }
  }

  /** The hashing loop: the context absorbs the file in chunks. */
  method Absorb(file: seq<byte>, length: nat) returns (absorbed: seq<byte>)
    requires length <= |file|
    ensures absorbed == file[..length]
  {
    absorbed := [];
    var soFar := 0;
    while soFar < length
      invariant soFar <= length && absorbed == file[..soFar]
    {
      var size := BUFFER_SIZE;
      if length - soFar < size {
        size := length - soFar;
      }
      var buffer := file[soFar..soFar + size];
      absorbed := absorbed + buffer;
      soFar := soFar + size;
    }
  }

  // ---------- what acceptance gives

  /** Where a signature block that lies in the comment is in the file. */
  function BlockStart(file: seq<byte>): int {
    |file| - FOOTER_SIZE - RSANUMBYTES
  }

  /** With a long enough comment the block is read from the file, whatever precedes the buffer. */
  lemma SignatureInComment(file: seq<byte>, memory: seq<byte>)
    requires WellFormed(file) && |memory| >= RSANUMBYTES + FOOTER_SIZE
    requires CommentSize(file) >= RSANUMBYTES + FOOTER_SIZE
    ensures 0 <= BlockStart(file)
    ensures Signature(file, memory) == file[BlockStart(file)..BlockStart(file) + RSANUMBYTES]
  {
    var tail := file[Eocd(file)..];
    var all := memory + tail;
    var a := |all| - FOOTER_SIZE - RSANUMBYTES;
    assert all[a..a + RSANUMBYTES] == tail[a - |memory|..a - |memory| + RSANUMBYTES];
  }

  /** The signed bytes end before the block exactly when the comment has at least 260 bytes. */
  lemma SignedBytesDisjoint(file: seq<byte>)
    requires WellFormed(file)
    ensures |Signed(file)| <= BlockStart(file) <==> CommentSize(file) >= RSANUMBYTES + FOOTER_SIZE - 2
  {
    assert |Signed(file)| == |file| - CommentSize(file) - 2;
  }

  /**
   An accepted package whose comment can hold the block and the footer: the record found is
   the last marker anywhere in the file, and some given key accepts the block in the comment
   for the hash of everything before the comment length field, which the block is no part of.
   */
  lemma AcceptedPackage<Key>(file: seq<byte>, keys: seq<Key>, memory: seq<byte>,
                             sha: seq<byte> -> seq<byte>, rsa: (Key, seq<byte>, seq<byte>) -> bool)
    requires |memory| >= RSANUMBYTES + FOOTER_SIZE && Acceptable(file, keys, memory, sha, rsa)
    requires CommentSize(file) >= RSANUMBYTES + FOOTER_SIZE
    ensures forall p :: Marker(file, p) ==> p <= Eocd(file)
    ensures |file| - CommentSize(file) <= BlockStart(file) && |Signed(file)| <= BlockStart(file)
    ensures var block := file[BlockStart(file)..BlockStart(file) + RSANUMBYTES];
      exists i :: 0 <= i < |keys| && rsa(keys[i], block, sha(file[..|file| - CommentSize(file) - 2]))
  {
    SignatureInComment(file, memory);
    SignedBytesDisjoint(file);
    assert Signed(file) == file[..|file| - CommentSize(file) - 2];
  }

  // ---------- a package as the signing tool builds it

  /** A 16 bit number, least significant byte first, as everywhere in the format. */
  function Short(n: nat): (b: seq<byte>)
    requires n < 65536
    ensures |b| == 2
  {
    [n % 256, n / 256]
  }

  /** Content, the record up to its comment length field, that field, and the comment. */
  function Package(content: seq<byte>, record: seq<byte>, comment: seq<byte>): seq<byte>
    requires |comment| < 65536
  {
    content + record + Short(|comment|) + comment
  }

  /** The end of the comment: where the signature starts, two marks, and the comment size. */
  function Footer(start: nat, size: nat): seq<byte>
    requires start < 65536 && size < 65536
  {
    Short(start) + [255, 255] + Short(size)
  }

  predicate Assembled(file: seq<byte>, content: seq<byte>, record: seq<byte>, text: seq<byte>, block: seq<byte>,
                      start: nat) {
    && start < 65536 && |record| == 20 && |block| == 256 && |text| + 262 < 65536
    && file == Package(content, record, text + block + Footer(start, |text| + 262))
  }

  lemma FooterBytes(file: seq<byte>, front: seq<byte>, start: nat, size: nat)
    requires start < 65536 && size < 65536 && file == front + Footer(start, size)
    ensures |file| >= FOOTER_SIZE && HasFooter(file)
    ensures SignatureStart(file) == start && CommentSize(file) == size
  {
    var n := |front|;
    assert file[n] == start % 256 && file[n + 1] == start / 256;
    assert file[n + 2] == 255 && file[n + 3] == 255;
    assert file[n + 4] == size % 256 && file[n + 5] == size / 256;
  }

  /** Its parts are found again, the bytes signed and the block among them. */
  lemma PartsFound(file: seq<byte>, content: seq<byte>, record: seq<byte>, text: seq<byte>, block: seq<byte>,
                   start: nat, memory: seq<byte>)
    requires Assembled(file, content, record, text, block, start) && |memory| >= RSANUMBYTES + FOOTER_SIZE
    ensures WellFormed(file) <==> start >= 262
    ensures WellFormed(file) ==>
      Eocd(file) == |content| && Signed(file) == content + record && Signature(file, memory) == block
  {
    var size := |text| + 262;
    var head := content + record + Short(size);
    var front := head + text + block;
    var footer := Footer(start, size);
    assert file == front + footer;
    FooterBytes(file, front, start, size);
    if WellFormed(file) {
      assert Eocd(file) == |content|;
      assert file[..|content| + 20] == content + record;
      SignatureInComment(file, memory);
      assert BlockStart(file) == |head| + |text|;
      assert file[|head| + |text|..|head| + |text| + 256] == block;
    }
  }

  /**
   Such a package is accepted exactly if the signature start leaves room for the block, the
   record begins with the marker and no other marker follows, and some key accepts the block
   for the hash of content and record.
   */
  lemma AssembledAccepted<Key>(file: seq<byte>, content: seq<byte>, record: seq<byte>, text: seq<byte>,
                               block: seq<byte>, start: nat, keys: seq<Key>, memory: seq<byte>,
                               sha: seq<byte> -> seq<byte>, rsa: (Key, seq<byte>, seq<byte>) -> bool)
    requires Assembled(file, content, record, text, block, start) && |memory| >= RSANUMBYTES + FOOTER_SIZE
    ensures Acceptable(file, keys, memory, sha, rsa) <==>
      && start >= 262 && record[..4] == [0x50, 0x4b, 0x05, 0x06]
      && (forall p :: |content| < p <= |file| - 4 ==> !Marker(file, p))
      && exists i :: 0 <= i < |keys| && rsa(keys[i], block, sha(content + record))
  {
    PartsFound(file, content, record, text, block, start, memory);
    var at := |content|;
    assert file[at..at + 4] == record[..4];
    assert file[at] == record[..4][0] && file[at + 1] == record[..4][1];
    assert file[at + 2] == record[..4][2] && file[at + 3] == record[..4][3];
  }
}
