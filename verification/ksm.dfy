/** The YubiKey KSM: the check of the typed OTP in a decrypt request, the
    file-system AEAD store laid out by public id, and the reply the server
    sends for a decrypt request. */
module Ksm {
  import opened Bytes
  import opened Errors
  import opened Numerals
  import opened Records
  import opened Util
  import opened Yubikey
  import Defines
  import SoftHsm
  import ValidateCmd
  import AeadFile
  import Otp

  // ---- valid_input_from_key ------------------------------------------------

  /** `valid_input_from_key`, the pattern `^[cbdefghijklnrtuv]{32,48}$` used
      with `re.match`: 32 to 48 modhex characters; Python's `$` also matches
      just before a final newline, so one trailing "\n" passes too. */
  function ValidInputFromKey(s: string): (ok: bool)
    ensures ok <==>
      || (OtpChars <= |s| <= MaxFromKey && Over(s, ModhexAlphabet))
      || (|s| > 0 && s[|s| - 1] == '\n' && OtpChars <= |s| - 1 <= MaxFromKey && Over(s[..|s| - 1], ModhexAlphabet))
    ensures ok ==> OtpChars <= |s| <= MaxFromKey + 1
  {
    var body := if |s| > 0 && s[|s| - 1] == '\n' then s[..|s| - 1] else s;
    assert Over(s, ModhexAlphabet) && |s| > 0 ==> s[|s| - 1] != '\n';
    OtpChars <= |body| <= MaxFromKey && Over(body, ModhexAlphabet)
  }

  /** What a YubiKey types, its public id and its OTP in modhex, passes the
      input check when the public id is at most eight bytes. */
  lemma TypedOtpIsValidInput(publicId: seq<byte>, otp: seq<byte>)
    requires |publicId| <= 8 && |otp| == Defines.OtpSize
    ensures ValidInputFromKey(ModhexEncode(ToHex(publicId)) + ModhexEncode(ToHex(otp)))
  {
    var p, o := ModhexEncode(ToHex(publicId)), ModhexEncode(ToHex(otp));
    ModhexOfBytes(publicId);
    ModhexOfBytes(otp);
    OverConcat(p, o, ModhexAlphabet);
  }

  lemma OverConcat(a: string, b: string, alphabet: string)
    requires Over(a, alphabet) && Over(b, alphabet)
    ensures Over(a + b, alphabet)
  {
    var s := a + b;
    forall i | 0 <= i < |s| ensures s[i] in alphabet {
      if i < |a| { assert s[i] == a[i]; } else { assert s[i] == b[i - |a|]; }
    }
  }

  // ---- aead_filename -------------------------------------------------------

  /** `os.path.join` of two parts on POSIX: an absolute second part replaces
      the first; otherwise a separator is put between them unless the first
      is empty or already ends with one. */
  function Join2(a: string, b: string): (r: string)
    ensures |b| > 0 && b[0] == '/' ==> r == b
    ensures (|b| == 0 || b[0] != '/') && |a| > 0 && a[|a| - 1] != '/' ==> r == a + "/" + b
    ensures (|b| == 0 || b[0] != '/') && (|a| == 0 || a[|a| - 1] == '/') ==> r == a + b
  {
    if |b| > 0 && b[0] == '/' then b
    else if |a| == 0 || a[|a| - 1] == '/' then a + b
    else a + "/" + b
  }

  /** `os.path.join(*parts)`. */
  function PathJoin(parts: seq<string>): string
    requires |parts| >= 1
  {
    if |parts| == 1 then parts[0] else Join2(PathJoin(parts[..|parts| - 1]), parts[|parts| - 1])
  }

  /** The parts separated by single slashes, `"/".join(parts)`. */
  function SlashJoin(parts: seq<string>): (r: string)
    requires |parts| >= 1
    ensures |parts[|parts| - 1]| > 0 ==> |r| > 0 && r[|r| - 1] == parts[|parts| - 1][|parts[|parts| - 1]| - 1]
  {
    if |parts| == 1 then parts[0] else SlashJoin(parts[..|parts| - 1]) + "/" + parts[|parts| - 1]
  }

  predicate NoSlash(s: string) {
    forall i :: 0 <= i < |s| ==> s[i] != '/'
  }

  /** A path component that joins plainly: non-empty, neither starting nor
      ending with a slash. */
  predicate Component(s: string) {
    |s| > 0 && s[0] != '/' && s[|s| - 1] != '/'
  }

  /** A non-empty first part without a trailing slash, then plain components. */
  predicate Joinable(parts: seq<string>) {
    && |parts| >= 1 && |parts[0]| > 0 && parts[0][|parts[0]| - 1] != '/'
    && forall i :: 1 <= i < |parts| ==> Component(parts[i])
  }

  /** Joining a directory without a trailing slash and plain components is
      putting single slashes between them. */
  lemma {:induction false} PathJoinIsSlashJoin(parts: seq<string>)
    requires Joinable(parts)
    ensures PathJoin(parts) == SlashJoin(parts)
  {
    if |parts| > 1 {
      var init := parts[..|parts| - 1];
      PathJoinIsSlashJoin(init);
      assert init[|init| - 1] == parts[|parts| - 2];
      assert |init[|init| - 1]| > 0 && init[|init| - 1][|init[|init| - 1]| - 1] != '/' by {
        if |parts| - 2 >= 1 { assert Component(parts[|parts| - 2]); }
      }
    }
  }

  /** Chunks of a slash-free string are slash-free. */
  lemma {:induction false} ChunksNoSlash(chunks: seq<string>)
    requires NoSlash(Flatten(chunks))
    ensures forall i :: 0 <= i < |chunks| ==> NoSlash(chunks[i])
  {
    if |chunks| > 0 {
      var f := Flatten(chunks);
      assert f == chunks[0] + Flatten(chunks[1..]);
      assert NoSlash(chunks[0]) by {
        forall k | 0 <= k < |chunks[0]| ensures chunks[0][k] != '/' { assert chunks[0][k] == f[k]; }
      }
      assert NoSlash(Flatten(chunks[1..])) by {
        forall k | 0 <= k < |Flatten(chunks[1..])| ensures Flatten(chunks[1..])[k] != '/' {
          assert Flatten(chunks[1..])[k] == f[|chunks[0]| + k];
        }
      }
      ChunksNoSlash(chunks[1..]);
      forall i | 1 <= i < |chunks| ensures NoSlash(chunks[i]) { assert chunks[i] == chunks[1..][i - 1]; }
    }
  }

  /** `aead_filename`: the AEAD directory, the key handle as configured, one
      directory per two characters of the public id, then the public id. */
  function AeadFilename(aeadDir: string, keyHandle: string, publicId: string): (r: string)
    ensures Component(publicId) ==> |r| >= |publicId| && r[|r| - |publicId|..] == publicId
  {
    PathJoin([aeadDir, keyHandle] + Group(publicId, 2) + [publicId])
  }

  /** The layout of the store: for a directory without a trailing slash, a
      plain key handle and a non-empty slash-free public id, the file name is
      those parts and the public id's character pairs, separated by slashes. */
  lemma AeadFilenameLayout(aeadDir: string, keyHandle: string, publicId: string)
    requires |aeadDir| > 0 && aeadDir[|aeadDir| - 1] != '/' && Component(keyHandle)
    requires |publicId| > 0 && NoSlash(publicId)
    ensures AeadFilename(aeadDir, keyHandle, publicId) == SlashJoin([aeadDir, keyHandle] + Group(publicId, 2) + [publicId])
  {
    var parts := [aeadDir, keyHandle] + Group(publicId, 2) + [publicId];
    PartsAreComponents(aeadDir, keyHandle, publicId);
    PathJoinIsSlashJoin(parts);
  }

  /** The character pairs of a slash-free public id are plain components. */
  lemma PairsAreComponents(publicId: string)
    requires NoSlash(publicId)
    ensures forall i :: 0 <= i < |Group(publicId, 2)| ==> Component(Group(publicId, 2)[i])
  {
    var chunks := Group(publicId, 2);
    ChunksNoSlash(chunks);
    forall i | 0 <= i < |chunks| ensures Component(chunks[i]) {
      assert NoSlash(chunks[i]) && |chunks[i]| > 0;
    }
  }

  /** A directory without a trailing slash followed by plain components is
      joinable. */
  lemma JoinableParts(aeadDir: string, keyHandle: string, chunks: seq<string>, publicId: string)
    requires |aeadDir| > 0 && aeadDir[|aeadDir| - 1] != '/'
    requires Component(keyHandle) && Component(publicId)
    requires forall i :: 0 <= i < |chunks| ==> Component(chunks[i])
    ensures Joinable([aeadDir, keyHandle] + chunks + [publicId])
  {
    var parts := [aeadDir, keyHandle] + chunks + [publicId];
    forall i | 1 <= i < |parts| ensures Component(parts[i]) {
      if 2 <= i < 2 + |chunks| {
        assert parts[i] == chunks[i - 2];
      } else if i == |parts| - 1 {
        assert parts[i] == publicId;
      }
    }
  }

  // PartsAreComponents, SlashInLonger and LastComponentUnique below are steps
  // of AeadFilenameLayout and AeadFilenameInjective.

  /** The parts of an AEAD file name after the directory are plain components. */
  lemma PartsAreComponents(aeadDir: string, keyHandle: string, publicId: string)
    requires |aeadDir| > 0 && aeadDir[|aeadDir| - 1] != '/'
    requires Component(keyHandle) && |publicId| > 0 && NoSlash(publicId)
    ensures Joinable([aeadDir, keyHandle] + Group(publicId, 2) + [publicId])
  {
    PairsAreComponents(publicId);
    JoinableParts(aeadDir, keyHandle, Group(publicId, 2), publicId);
  }

  /** Of two ways to end a string in a slash and a component, the shorter
      component's slash falls inside the longer one. */
  lemma SlashInLonger(a: string, p: string, b: string, q: string)
    requires a + "/" + p == b + "/" + q && |p| < |q|
    ensures q[|q| - |p| - 1] == '/'
  {
    var s := a + "/" + p;
    assert s[|s| - |p| - 1] == '/';
    assert s[|s| - |p| - 1] == (b + "/" + q)[|s| - |p| - 1];
  }

  /** The last slash-separated component is determined by the string. */
  lemma LastComponentUnique(a: string, p: string, b: string, q: string)
    requires NoSlash(p) && NoSlash(q)
    requires a + "/" + p == b + "/" + q
    ensures p == q
  {
    if |p| < |q| {
      SlashInLonger(a, p, b, q);
      assert false;
    } else if |q| < |p| {
      SlashInLonger(b, q, a, p);
      assert false;
    } else {
      var s := a + "/" + p;
      assert s[|s| - |p|..] == p && s[|s| - |q|..] == q;
    }
  }

  /** Every public id has a file of its own under a key handle's directory. */
  lemma AeadFilenameInjective(aeadDir: string, keyHandle: string, p: string, q: string)
    requires |aeadDir| > 0 && aeadDir[|aeadDir| - 1] != '/' && Component(keyHandle)
    requires |p| > 0 && NoSlash(p) && |q| > 0 && NoSlash(q)
    requires AeadFilename(aeadDir, keyHandle, p) == AeadFilename(aeadDir, keyHandle, q)
    ensures p == q
  {
    AeadFilenameLayout(aeadDir, keyHandle, p);
    AeadFilenameLayout(aeadDir, keyHandle, q);
    var pp := [aeadDir, keyHandle] + Group(p, 2) + [p];
    var qq := [aeadDir, keyHandle] + Group(q, 2) + [q];
    assert SlashJoin(pp) == SlashJoin(pp[..|pp| - 1]) + "/" + p;
    assert SlashJoin(qq) == SlashJoin(qq[..|qq| - 1]) + "/" + q;
    LastComponentUnique(SlashJoin(pp[..|pp| - 1]), p, SlashJoin(qq[..|qq| - 1]), q);
  }

  // ---- args_fixup ----------------------------------------------------------

  /** `args_fixup`: each configured key handle paired with its value; the
      first one that does not parse stops the server with its error. */
  function KeyHandlePairs(names: seq<string>): (r: Result<seq<(string, int)>>)
    ensures r.Success? <==> forall i :: 0 <= i < |names| ==> KeyHandleToInt(names[i]).Success?
    ensures r.Success? ==> (|r.value| == |names| &&
      forall i :: 0 <= i < |names| ==> r.value[i] == (names[i], KeyHandleToInt(names[i]).value))
    ensures r.Failure? ==> exists i :: (0 <= i < |names| && KeyHandleToInt(names[i]).Failure? &&
      r.error == KeyHandleToInt(names[i]).error && forall j :: 0 <= j < i ==> KeyHandleToInt(names[j]).Success?)
  {
    if |names| == 0 then Success([])
    else
      var k :- KeyHandleToInt(names[0]);
      var rest :- KeyHandlePairs(names[1..]);
      assert forall i :: 1 <= i < |names| ==> names[i] == names[1..][i - 1];
      Success([(names[0], k)] + rest)
  }

  // ---- FSBackend.load_aead -------------------------------------------------

  /** The AEAD store as the server sees it: the directory, the configured key
      handles with their values, and the files present, by path. */
  datatype FsBackend = FsBackend(aeadDir: string, keyHandles: seq<(string, int)>, files: map<string, seq<byte>>)

  /** Loading a file that is present into a record with the key handle's
      value and no nonce; a record left without a nonce (a version 0 file)
      takes the public id decoded from modhex and hex. */
  function LoadFound(file: seq<byte>, khValue: int, publicId: string): (r: Result<GeneratedAead>)
    ensures r.Failure? ==> r.error != AeadNotFound
    ensures r.Success? ==> |r.value.nonce| > 0 || |publicId| == 0
    ensures !StartsWith(file, AeadFile.Marker) && !StartsWith(file, AeadFile.CrlfMarker) ==>
      && (r.Success? <==> FromHex(ModhexDecode(publicId)).Success?)
      && (r.Success? ==> r.value == GeneratedAead(FromHex(ModhexDecode(publicId)).value, khValue,
                                                  file[..AeadFile.Min(|file|, AeadFile.Version0Size)]))
    ensures StartsWith(file, AeadFile.Marker) || StartsWith(file, AeadFile.CrlfMarker) ==>
      r == AeadFile.Load(file, GeneratedAead([], khValue, []))
  {
    var a :- AeadFile.Load(file, GeneratedAead([], khValue, []));
    if |a.nonce| == 0 then
      var n :- FromHex(ModhexDecode(publicId));
      Success(a.(nonce := n))
    else Success(a)
  }

  /** The loop of `load_aead` over the key handles: a missing file moves on
      to the next key handle, the first file present decides. */
  function LoadFrom(files: map<string, seq<byte>>, aeadDir: string, khs: seq<(string, int)>, publicId: string)
    : (r: Result<GeneratedAead>)
    ensures r == Failure(AeadNotFound) <==> forall i :: 0 <= i < |khs| ==> AeadFilename(aeadDir, khs[i].0, publicId) !in files
    decreases |khs|
  {
    if |khs| == 0 then Failure(AeadNotFound)
    else
      var fn := AeadFilename(aeadDir, khs[0].0, publicId);
      if fn in files then LoadFound(files[fn], khs[0].1, publicId)
      else
        var r := LoadFrom(files, aeadDir, khs[1..], publicId);
        assert forall i :: 1 <= i < |khs| ==> khs[i] == khs[1..][i - 1];
        r
  }

  /** `FSBackend.load_aead`: the AEAD of the first configured key handle
      that has a file for the public id; the missing-file error when none has. */
  function LoadAead(b: FsBackend, publicId: string): (r: Result<GeneratedAead>)
    ensures r == Failure(AeadNotFound) <==>
      forall i :: 0 <= i < |b.keyHandles| ==> AeadFilename(b.aeadDir, b.keyHandles[i].0, publicId) !in b.files
  {
    LoadFrom(b.files, b.aeadDir, b.keyHandles, publicId)
  }

  /** The first key handle whose file is present is the one loaded. */
  lemma {:induction false} FirstPresentWins(files: map<string, seq<byte>>, aeadDir: string, khs: seq<(string, int)>,
                                            publicId: string, i: nat)
    requires i < |khs| && AeadFilename(aeadDir, khs[i].0, publicId) in files
    requires forall j :: 0 <= j < i ==> AeadFilename(aeadDir, khs[j].0, publicId) !in files
    ensures LoadFrom(files, aeadDir, khs, publicId) == LoadFound(files[AeadFilename(aeadDir, khs[i].0, publicId)], khs[i].1, publicId)
  {
    if i > 0 {
      assert AeadFilename(aeadDir, khs[0].0, publicId) !in files;
      assert khs[1..][i - 1] == khs[i];
      forall j | 0 <= j < i - 1 ensures AeadFilename(aeadDir, khs[1..][j].0, publicId) !in files {
        assert khs[1..][j] == khs[j + 1];
      }
      FirstPresentWins(files, aeadDir, khs[1..], publicId, i - 1);
    }
  }

  // ---- the reply -----------------------------------------------------------

  /** The success line, `"OK counter={:04x} low={:04x} high={:02x} use={:02x}"`
      filled from the use counter, the timestamp halves and the session
      counter. */
  function OkLine(v: ValidateCmd.ValidationResult): (line: string)
    ensures |line| == 39 && line[..3] == "OK "
  {
    assert Pow(16, 2) == 0x100 && Pow(16, 4) == 0x1_0000 by {
      assert Pow(16, 0) == 1;
      assert Pow(16, 1) == 16;
      assert Pow(16, 3) == 0x1000;
    }
    "OK counter=" + FormatHex(v.useCtr, 4) + " low=" + FormatHex(v.tsLow, 4) +
    " high=" + FormatHex(v.tsHigh, 2) + " use=" + FormatHex(v.sessionCtr, 2)
  }

  /** Each field of the success line reads back as the hex number at its place. */
  lemma OkLineReadsBack(v: ValidateCmd.ValidationResult)
    ensures var line := OkLine(v);
      && AllDigits(line[11..15], 16) && ParseNat(line[11..15], 16) == v.useCtr
      && AllDigits(line[20..24], 16) && ParseNat(line[20..24], 16) == v.tsLow
      && AllDigits(line[30..32], 16) && ParseNat(line[30..32], 16) == v.tsHigh
      && AllDigits(line[37..39], 16) && ParseNat(line[37..39], 16) == v.sessionCtr
  {
    var line := OkLine(v);
    var c, l, h, u := FormatHex(v.useCtr, 4), FormatHex(v.tsLow, 4), FormatHex(v.tsHigh, 2), FormatHex(v.sessionCtr, 2);
    assert |c| == 4 && |l| == 4 && |h| == 2 && |u| == 2;
    assert line == "OK counter=" + c + " low=" + l + " high=" + h + " use=" + u;
    assert line[11..15] == c && line[20..24] == l && line[30..32] == h && line[37..39] == u;
  }

  /** The line is a function of the four fields only, and tells them apart. */
  lemma OkLineInjective(v: ValidateCmd.ValidationResult, w: ValidateCmd.ValidationResult)
    requires OkLine(v) == OkLine(w)
    ensures v.useCtr == w.useCtr && v.tsLow == w.tsLow && v.tsHigh == w.tsHigh && v.sessionCtr == w.sessionCtr
  {
    OkLineReadsBack(v);
    OkLineReadsBack(w);
  }

  const InvalidOtpReply := "ERR Invalid OTP"
  const UnknownIdReply := "ERR Unknown public_id"
  const ErrReply := "ERR"

  /** What the request handler ends with: a reply line, or an exception that
      is not a YHSM error and leaves the handler. */
  datatype Outcome = Reply(text: string) | Crash(error: Error)

  /** `decrypt_yubikey_otp`: the typed OTP must match the input pattern; its
      public id must have an AEAD in the store; the OTP is validated under it
      with the AEAD's key handle. A YHSM error gives the bare "ERR". */
  function DecryptYubikeyOtp(aes: SoftHsm.Aes, hsm: SoftHsm.Hsm, backend: FsBackend, fromKey: string): (r: Outcome)
    ensures r == Reply(InvalidOtpReply) <==> !ValidInputFromKey(fromKey)
    ensures ValidInputFromKey(fromKey) && LoadAead(backend, SplitIdOtp(fromKey).value.0).Failure? ==>
      r == Reply(UnknownIdReply)
    ensures (r.Reply? && StartsWith(r.text, "OK ")) <==> (
      && ValidInputFromKey(fromKey) && LoadAead(backend, SplitIdOtp(fromKey).value.0).Success?
      && var aead := LoadAead(backend, SplitIdOtp(fromKey).value.0).value;
         ValidateYubikeyWithAead(aes, hsm, fromKey, aead, KhInt(aead.keyHandle)).Success?)
    ensures r.Crash? ==> !IsYhsmError(r.error)
  {
    assert !StartsWith(InvalidOtpReply, "OK ") && !StartsWith(UnknownIdReply, "OK ") && !StartsWith(ErrReply, "OK ") by {
      assert InvalidOtpReply[0] == UnknownIdReply[0] == ErrReply[0] == 'E';
    }
    if !ValidInputFromKey(fromKey) then Reply(InvalidOtpReply)
    else
      var publicId := SplitIdOtp(fromKey).value.0;
      match LoadAead(backend, publicId)
      case Failure(_) => Reply(UnknownIdReply)
      case Success(aead) =>
        match ValidateYubikeyWithAead(aes, hsm, fromKey, aead, KhInt(aead.keyHandle))
        case Success(res) => Reply(OkLine(res))
        case Failure(e) => if IsYhsmError(e) then Reply(ErrReply) else Crash(e)
  }

  /** On a typed OTP that passes the input pattern, whose AEAD loads and
      validates, the reply is the success line of the validation result. */
  lemma ReplyOfValidated(aes: SoftHsm.Aes, hsm: SoftHsm.Hsm, backend: FsBackend, fromKey: string, aead: GeneratedAead,
                         v: ValidateCmd.ValidationResult)
    requires ValidInputFromKey(fromKey) && LoadAead(backend, SplitIdOtp(fromKey).value.0) == Success(aead)
    requires ValidateYubikeyWithAead(aes, hsm, fromKey, aead, KhInt(aead.keyHandle)) == Success(v)
    ensures DecryptYubikeyOtp(aes, hsm, backend, fromKey) == Reply(OkLine(v))
  {
  }

  /** When validation fails with a YHSM error, the reply is the bare "ERR". */
  lemma ReplyOfRefused(aes: SoftHsm.Aes, hsm: SoftHsm.Hsm, backend: FsBackend, fromKey: string, aead: GeneratedAead, e: Error)
    requires ValidInputFromKey(fromKey) && LoadAead(backend, SplitIdOtp(fromKey).value.0) == Success(aead)
    requires ValidateYubikeyWithAead(aes, hsm, fromKey, aead, KhInt(aead.keyHandle)) == Failure(e) && IsYhsmError(e)
    ensures DecryptYubikeyOtp(aes, hsm, backend, fromKey) == Reply(ErrReply)
  {
  }

  /** Validation needs the OTP part of the typed input to be hex once decoded. */
  lemma ValidatedOtpIsHex(aes: SoftHsm.Aes, hsm: SoftHsm.Hsm, fromKey: string, aead: GeneratedAead, kh: KeyHandleInput)
    requires ValidateYubikeyWithAead(aes, hsm, fromKey, aead, kh).Success?
    ensures |fromKey| >= OtpChars && AllDigits(ModhexDecode(SplitIdOtp(fromKey).value.1), 16)
  {
  }

  /** The OTP part of a typed input ending in a newline ends in it too, so
      it is no hex string once decoded. */
  lemma NewlineOtpIsNoHex(s: string)
    requires |s| >= OtpChars && s[|s| - 1] == '\n'
    ensures !AllDigits(ModhexDecode(SplitIdOtp(s).value.1), 16)
  {
    var otp := SplitIdOtp(s).value.1;
    assert otp[|otp| - 1] == '\n';
    assert '\n' !in ModhexAlphabet;
    assert !IsHexDigit(ModhexDecode(otp)[|otp| - 1]);
  }

  /** A typed OTP with a trailing newline passes the input pattern but never
      validates: the newline ends up among the OTP's hex digits. */
  lemma TrailingNewlineNeverValidates(aes: SoftHsm.Aes, hsm: SoftHsm.Hsm, backend: FsBackend, typed: string)
    ensures var r := DecryptYubikeyOtp(aes, hsm, backend, typed + "\n");
      !(r.Reply? && StartsWith(r.text, "OK "))
  {
    var s := typed + "\n";
    if ValidInputFromKey(s) && LoadAead(backend, SplitIdOtp(s).value.0).Success? {
      var aead := LoadAead(backend, SplitIdOtp(s).value.0).value;
      NewlineOtpIsNoHex(s);
      if ValidateYubikeyWithAead(aes, hsm, s, aead, KhInt(aead.keyHandle)).Success? {
        ValidatedOtpIsHex(aes, hsm, s, aead, KhInt(aead.keyHandle));
        assert false;
      }
    }
  }

  /** The store with the saved AEAD of a secret under its one key handle
      loads that AEAD for the public id. */
  lemma StoreLoadsSaved(aead: GeneratedAead, aeadDir: string, khName: string, pid: string)
    requires 0 <= aead.keyHandle < 0x1_0000_0000 && |aead.nonce| == Defines.AeadNonceSize
    requires AeadFile.HeaderSize + |aead.data| <= AeadFile.ReadSize
    ensures var fn := AeadFilename(aeadDir, khName, pid);
      LoadAead(FsBackend(aeadDir, [(khName, aead.keyHandle)], map[fn := AeadFile.Save(aead).value]), pid) == Success(aead)
  {
    var fn := AeadFilename(aeadDir, khName, pid);
    var backend := FsBackend(aeadDir, [(khName, aead.keyHandle)], map[fn := AeadFile.Save(aead).value]);
    AeadFile.LoadOfSaveExact(aead, GeneratedAead([], aead.keyHandle, []));
    var file := AeadFile.Save(aead).value;
    assert StartsWith(file, AeadFile.Marker);
    FirstPresentWins(backend.files, aeadDir, backend.keyHandles, pid, 0);
  }

  /** A public id and an OTP typed in modhex pass the input pattern and split
      back into the two. */
  lemma TypedOtpSplits(publicId: seq<byte>, otp: seq<byte>)
    requires |publicId| <= 8 && |otp| == Defines.OtpSize
    ensures var typed := ModhexEncode(ToHex(publicId)) + ModhexEncode(ToHex(otp));
      && ValidInputFromKey(typed)
      && SplitIdOtp(typed) == Success((ModhexEncode(ToHex(publicId)), ModhexEncode(ToHex(otp))))
  {
    TypedOtpIsValidInput(publicId, otp);
    SplitOfConcat(ModhexEncode(ToHex(publicId)), ModhexEncode(ToHex(otp)));
  }

  /** The typed form of a genuine OTP passes the input pattern, splits at
      the modhex public id, and validates under the secret's AEAD. */
  lemma GenuineTypedOtpValidates(aes: SoftHsm.Aes, hsm: SoftHsm.Hsm, secret: YubiKeySecret, publicId: seq<byte>, kh: int,
                                 token: Otp.Token)
    requires SoftHsm.Inverts(aes)
    requires SoftHsm.Provisioned(hsm, secret, publicId, kh) && |publicId| == Defines.PublicIdSize
    requires token.uid == PadRight(secret.uid, Defines.UidSize)
    ensures var pid := ModhexEncode(ToHex(publicId));
      var typed := pid + ModhexEncode(ToHex(aes.encrypt(secret.key, Otp.Encode(token))));
      && ValidInputFromKey(typed) && SplitIdOtp(typed).value.0 == pid
      && ValidateYubikeyWithAead(aes, hsm, typed, SoftHsm.SecretAead(aes, hsm, secret, publicId, kh), KhInt(kh))
         == Success(ValidateCmd.ValidationResult(publicId, token.useCtr, token.sessionCtr, token.tsHigh, token.tsLow))
  {
    var otp := aes.encrypt(secret.key, Otp.Encode(token));
    TypedOtpSplits(publicId, otp);
    ValidatesTypedOtp(aes, hsm, secret, publicId, publicId, kh, token);
    assert PadRight(publicId, Defines.AeadNonceSize) == publicId;
  }

  /** End to end: a secret provisioned on the soft HSM under key handle kh
      (configured as khName), its AEAD saved where the store looks for the
      YubiKey's public id, and an OTP made by the YubiKey with the secret's
      key and uid, typed in modhex: the server replies with the success line
      carrying the token's counters. */
  lemma ServesGenuineOtp(aes: SoftHsm.Aes, hsm: SoftHsm.Hsm, secret: YubiKeySecret, publicId: seq<byte>, kh: int,
                         khName: string, aeadDir: string, token: Otp.Token)
    requires SoftHsm.Inverts(aes)
    requires SoftHsm.Provisioned(hsm, secret, publicId, kh) && |publicId| == Defines.PublicIdSize
    requires token.uid == PadRight(secret.uid, Defines.UidSize)
    ensures var aead := SoftHsm.SecretAead(aes, hsm, secret, publicId, kh);
      var pid := ModhexEncode(ToHex(publicId));
      var backend := FsBackend(aeadDir, [(khName, kh)], map[AeadFilename(aeadDir, khName, pid) := AeadFile.Save(aead).value]);
      var otp := aes.encrypt(secret.key, Otp.Encode(token));
      DecryptYubikeyOtp(aes, hsm, backend, pid + ModhexEncode(ToHex(otp)))
        == Reply(OkLine(ValidateCmd.ValidationResult(publicId, token.useCtr, token.sessionCtr, token.tsHigh, token.tsLow)))
  {
    var aead := SoftHsm.SecretAead(aes, hsm, secret, publicId, kh);
    var pid := ModhexEncode(ToHex(publicId));
    var backend := FsBackend(aeadDir, [(khName, kh)], map[AeadFilename(aeadDir, khName, pid) := AeadFile.Save(aead).value]);
    var typed := pid + ModhexEncode(ToHex(aes.encrypt(secret.key, Otp.Encode(token))));
    GenuineTypedOtpValidates(aes, hsm, secret, publicId, kh, token);
    StoreLoadsSaved(aead, aeadDir, khName, pid);
    ReplyOfValidated(aes, hsm, backend, typed, aead,
                     ValidateCmd.ValidationResult(publicId, token.useCtr, token.sessionCtr, token.tsHigh, token.tsLow));
  }

  /** The typed form of an OTP made with the secret's key but another uid
      passes the input pattern and is refused by the HSM as an invalid OTP. */
  lemma ForeignTypedOtpFails(aes: SoftHsm.Aes, hsm: SoftHsm.Hsm, secret: YubiKeySecret, publicId: seq<byte>, kh: int,
                             token: Otp.Token)
    requires SoftHsm.Inverts(aes)
    requires SoftHsm.Provisioned(hsm, secret, publicId, kh) && |publicId| == Defines.PublicIdSize
    requires |token.uid| == Defines.UidSize && token.uid != PadRight(secret.uid, Defines.UidSize)
    ensures var pid := ModhexEncode(ToHex(publicId));
      var typed := pid + ModhexEncode(ToHex(aes.encrypt(secret.key, Otp.Encode(token))));
      && ValidInputFromKey(typed) && SplitIdOtp(typed).value.0 == pid
      && ValidateYubikeyWithAead(aes, hsm, typed, SoftHsm.SecretAead(aes, hsm, secret, publicId, kh), KhInt(kh))
         == Failure(CommandFailed(ValidateCmd.Command, Defines.OtpInvalid))
  {
    var pid := ModhexEncode(ToHex(publicId));
    var otp := aes.encrypt(secret.key, Otp.Encode(token));
    var aead := SoftHsm.SecretAead(aes, hsm, secret, publicId, kh);
    TypedOtpSplits(publicId, otp);
    ModhexOfBytes(otp);
    ReducesToHsmCheck(aes, hsm, pid, ModhexEncode(ToHex(otp)), aead, kh, otp);
    SoftHsm.RejectsForeignUid(aes, hsm, secret, publicId, kh, token);
  }

  /** An OTP that decrypts under the secret's key to another uid gets the
      bare "ERR" from the server holding that secret's AEAD. */
  lemma RefusesForeignOtp(aes: SoftHsm.Aes, hsm: SoftHsm.Hsm, secret: YubiKeySecret, publicId: seq<byte>, kh: int,
                          khName: string, aeadDir: string, token: Otp.Token)
    requires SoftHsm.Inverts(aes)
    requires SoftHsm.Provisioned(hsm, secret, publicId, kh) && |publicId| == Defines.PublicIdSize
    requires |token.uid| == Defines.UidSize && token.uid != PadRight(secret.uid, Defines.UidSize)
    ensures var aead := SoftHsm.SecretAead(aes, hsm, secret, publicId, kh);
      var pid := ModhexEncode(ToHex(publicId));
      var backend := FsBackend(aeadDir, [(khName, kh)], map[AeadFilename(aeadDir, khName, pid) := AeadFile.Save(aead).value]);
      var otp := aes.encrypt(secret.key, Otp.Encode(token));
      DecryptYubikeyOtp(aes, hsm, backend, pid + ModhexEncode(ToHex(otp))) == Reply(ErrReply)
  {
    var aead := SoftHsm.SecretAead(aes, hsm, secret, publicId, kh);
    var pid := ModhexEncode(ToHex(publicId));
    var backend := FsBackend(aeadDir, [(khName, kh)], map[AeadFilename(aeadDir, khName, pid) := AeadFile.Save(aead).value]);
    var typed := pid + ModhexEncode(ToHex(aes.encrypt(secret.key, Otp.Encode(token))));
    ForeignTypedOtpFails(aes, hsm, secret, publicId, kh, token);
    StoreLoadsSaved(aead, aeadDir, khName, pid);
    ReplyOfRefused(aes, hsm, backend, typed, aead, CommandFailed(ValidateCmd.Command, Defines.OtpInvalid));
  }
}
