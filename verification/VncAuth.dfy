/** `vncauth.c`: storing a password under the fixed key, and loading it back. */
module VncAuth {
  import opened Des

  const FIXED_KEY: Block := [23, 82, 107, 6, 35, 78, 88, 7]

  /** The first eight bytes, padded with zeros. */
  function Padded(passwd: seq<bv8>): Block {
    seq(8, i requires 0 <= i < 8 => if i < |passwd| then passwd[i] else 0)
  }

  /** What a C program reads at a pointer: the bytes up to the first zero. */
  function CString(s: seq<bv8>): seq<bv8> {
    if s == [] || s[0] == 0 then [] else [s[0]] + CString(s[1..])
  }

  method Pad(passwd: seq<bv8>) returns (buf: array<bv8>)
    ensures fresh(buf) && buf.Length == 8 && buf[..] == Padded(passwd)
  {
    buf := new bv8[8](_ => 0);
    for i := 0 to 8
      invariant forall k :: 0 <= k < i ==> buf[k] == Padded(passwd)[k]
    {
      if i < |passwd| {
        buf[i] := passwd[i];
      } else {
        buf[i] := 0;
      }
    }
  }

  /** `rfbEncryptAndStorePasswd`: the eight bytes written, unless the file, which held `was`, could not be opened. */
  method EncryptAndStorePasswd(d: Cipher, passwd: seq<bv8>, canOpen: bool, was: seq<bv8>) returns (result: int, file: seq<bv8>)
    requires d.KnL.Length == 32
    modifies d.KnL
    ensures result == if canOpen then 0 else 1
    ensures file == if canOpen then Crypt(d.boxes, KeySchedule(FIXED_KEY, EN0), Padded(passwd)) else was
  {
    hide KeySchedule;
    hide Crypt;
    if !canOpen {
      return 1, was;
    }
    var encryptedPasswd := Pad(passwd);
    d.DesKey(FIXED_KEY, EN0);
    assert encryptedPasswd[0..8] == encryptedPasswd[..];
    d.Des(encryptedPasswd, 0, encryptedPasswd, 0);
    result, file := 0, encryptedPasswd[..];
    assert file == encryptedPasswd[0..8];
  }

  /** `rfbDecryptPasswdFromFile`: no password when the file is too short. */
  method DecryptPasswdFromFile(d: Cipher, file: seq<bv8>) returns (passwd: array?<bv8>)
    requires d.KnL.Length == 32
    modifies d.KnL
    ensures passwd == null <==> |file| < 8
    ensures passwd != null ==> fresh(passwd) && passwd.Length == 9 && passwd[8] == 0 &&
                               passwd[..8] == Crypt(d.boxes, KeySchedule(FIXED_KEY, DE1), file[..8])
  {
    hide KeySchedule;
    hide Crypt;
    var buf := new bv8[9](_ => 0);
    for i := 0 to 8
      invariant i <= |file| && buf[..i] == file[..i]
    {
      if i >= |file| {
        return null;
      }
      buf[i] := file[i];
    }
    d.DesKey(FIXED_KEY, DE1);
    assert buf[0..8] == file[..8];
    d.Des(buf, 0, buf, 0);
    assert buf[..8] == buf[0..8];
    buf[8] := 0;
    passwd := buf;
  }

  lemma {:induction false} CStringOfText(text: seq<bv8>, rest: seq<bv8>)
    requires 0 !in text && (rest == [] || rest[0] == 0)
    ensures CString(text + rest) == text
  {
    if text == [] {
      assert text + rest == rest;
    } else {
      assert (text + rest)[1..] == text[1..] + rest;
      CStringOfText(text[1..], rest);
    }
  }

  /** A stored password loads back as its first eight characters, whatever the S-boxes are. */
  method StoreAndLoad(d: Cipher, passwd: seq<bv8>) returns (loaded: array?<bv8>)
    requires d.KnL.Length == 32 && 0 !in passwd
    modifies d.KnL
    ensures loaded != null && loaded.Length == 9 && loaded[..8] == Padded(passwd)
    ensures CString(loaded[..]) == if |passwd| <= 8 then passwd else passwd[..8]
  {
    hide KeySchedule;
    hide Crypt;
    var result, file := EncryptAndStorePasswd(d, passwd, true, []);
    loaded := DecryptPasswdFromFile(d, file);
    assert file[..8] == file;
    DecryptEncrypt(d.boxes, FIXED_KEY, Padded(passwd));
    var text := if |passwd| <= 8 then passwd else passwd[..8];
    assert loaded[..] == loaded[..8] + [loaded[8]];
    assert loaded[..] == text + loaded[..][|text|..];
    CStringOfText(text, loaded[..][|text|..]);
  }
}
