/**
 * The file server's request helpers (Filesys/helper.cpp): the request
 * patterns, the parsing and validation of a client message into a request,
 * the parsing of a pathname into its names, the free-block allocator over the
 * global free-block bitmap, and the per-inode access checks.
 *
 * The file system limits come from `fs_param.h`, which is not part of this
 * model; the constants below are the values the course header uses.
 */
module FsHelper {
  import opened Common
  import opened FsText

  /** Longest name of a file or directory (`FS_MAXFILENAME`). */
  const MAXFILENAME: nat := 59
  /** Longest pathname (`FS_MAXPATHNAME`). */
  const MAXPATHNAME: nat := 128
  /** Longest username (`FS_MAXUSERNAME`). */
  const MAXUSERNAME: nat := 10
  /** Most data blocks per file (`FS_MAXFILEBLOCKS`). */
  const MAXFILEBLOCKS: nat := 124
  /** Blocks on the disk (`FS_DISKSIZE`). */
  const DISKSIZE: nat := 4096

  /** The request codes READ 0, WRITE 1, CREATE 2 and DELETE 3. */
  datatype RequestType = Read | Write | Create | Delete

  /** `request_t` without its data payload. `fileType` is meaningful for
      Create only; parsing leaves `NO_TYPE` in it for the other requests. */
  datatype Request = Request(requestType: RequestType, username: string, pathname: string,
                             block: nat, fileType: char)

  const NO_TYPE: char := '\0'

  // ---------------------------------------------------------------------
  // Request patterns (READ_REG, WRITE_REG, CREATE_REG, DELETE_REG)

  /** The characters the patterns exclude from a field: space, \n, \t, \v, \f, \r. */
  predicate IsSpace(c: char) {
    c == ' ' || c == '\n' || c == '\t' || c == '\U{B}' || c == '\U{C}' || c == '\r'
  }

  /** `[^ \n\t\v\f\r]+` */
  predicate Token(s: string) {
    |s| >= 1 && forall k :: 0 <= k < |s| ==> !IsSpace(s[k])
  }

  /** `[0-9]+` */
  predicate Digits(s: string) {
    |s| >= 1 && AllDigits(s)
  }

  /** `[fd]+` */
  predicate TypeWord(s: string) {
    |s| >= 1 && forall k :: 0 <= k < |s| ==> s[k] == 'f' || s[k] == 'd'
  }

  function Keyword(t: RequestType): string {
    match t
    case Read => "FS_READBLOCK"
    case Write => "FS_WRITEBLOCK"
    case Create => "FS_CREATE"
    case Delete => "FS_DELETE"
  }

  /** Fields in a message of type `t`, the keyword included. */
  function Arity(t: RequestType): nat {
    if t == Delete then 3 else 4
  }

  /** The fields a pattern asks for: the keyword, a username and a pathname
      token, and for READ and WRITE a digit string, for CREATE an f/d word. */
  predicate FieldsFit(f: seq<string>, t: RequestType) {
    |f| == Arity(t) && f[0] == Keyword(t) && Token(f[1]) && Token(f[2]) &&
    ((t == Read || t == Write) ==> Digits(f[3])) &&
    (t == Create ==> TypeWord(f[3]))
  }

  /** Whether `std::regex_match` accepts the message for the pattern of `t`.
      Every field of a pattern is free of spaces and fields are separated by
      single spaces, so a message matches exactly when its space-separated
      pieces fit the pattern. */
  predicate Matches(m: string, t: RequestType) {
    FieldsFit(SplitOn(m, ' '), t)
  }

  lemma TokenHasNoSpace(s: string)
    requires Token(s)
    ensures ' ' !in s
  {
    forall k | 0 <= k < |s|
      ensures s[k] != ' '
    {
      assert !IsSpace(s[k]);
    }
  }

  lemma DigitsAreToken(s: string)
    requires Digits(s)
    ensures Token(s)
  {
    forall k | 0 <= k < |s|
      ensures !IsSpace(s[k])
    {
      assert IsDigit(s[k]);
    }
  }

  lemma TypeWordIsToken(s: string)
    requires TypeWord(s)
    ensures Token(s)
  {
  }

  lemma KeywordHasNoSpace(t: RequestType)
    ensures ' ' !in Keyword(t)
  {
    var k := Keyword(t);
    assert forall i :: 0 <= i < |k| ==> k[i] != ' ';
  }

  /** The language of each pattern, one direction: every sequence of fitting
      fields joined by single spaces matches, and splits back into those fields. */
  lemma MatchesJoin(f: seq<string>, t: RequestType)
    requires FieldsFit(f, t)
    ensures SplitOn(Join(f, ' '), ' ') == f
    ensures Matches(Join(f, ' '), t)
  {
    KeywordHasNoSpace(t);
    forall k | 1 <= k < |f|
      ensures ' ' !in f[k]
    {
      if k == 3 && t != Create {
        DigitsAreToken(f[k]);
      } else if k == 3 {
        TypeWordIsToken(f[k]);
      }
      TokenHasNoSpace(f[k]);
    }
    SplitJoin(f, ' ');
  }

  /** The other direction: a matching message is its fields joined by single spaces. */
  lemma MatchedIsJoin(m: string, t: RequestType)
    requires Matches(m, t)
    ensures m == Join(SplitOn(m, ' '), ' ')
  {
    JoinSplit(m, ' ');
  }

  /** `Find_Request_Type`. The patterns differ in their keyword, so at most one
      matches and the order in which they are tried does not matter. */
  function FindRequestType(m: string): (r: Result<RequestType>)
    ensures forall t :: r == Success(t) <==> Matches(m, t)
    ensures r.Failure? <==> forall t :: !Matches(m, t)
    ensures r.Failure? ==> r.error == "Unkown Message Type"
  {
    if Matches(m, Read) then Success(Read)
    else if Matches(m, Write) then Success(Write)
    else if Matches(m, Create) then Success(Create)
    else if Matches(m, Delete) then Success(Delete)
    else Failure("Unkown Message Type")
  }

  // ---------------------------------------------------------------------
  // Block numbers (String_to_Int)

  /** What `String_to_Int` returns for each text. */
  function DecodeBlock(s: string): (r: Result<nat>)
    ensures r.Success? <==> Canonical(s)
    ensures r.Success? ==> Decimal(r.value) == s
  {
    if s == [] then Failure("Empty block number")
    else if s[0] == '0' && |s| > 1 then Failure("Leading Zeros in Block")
    else if !AllDigits(s) then Failure("Invalid block number")
    else DecimalOfValue(s); Success(Value(s))
  }

  /** Decoding inverts `std::to_string`. */
  lemma DecodeDecimal(n: nat)
    ensures DecodeBlock(Decimal(n)) == Success(n)
  {
    ValueOfDecimal(n);
  }

  /** `String_to_Int`: the emptiness and leading-zero checks, then a scan for
      a non-digit, then the conversion. */
  method StringToInt(block: string) returns (r: Result<nat>)
    ensures r == DecodeBlock(block)
  {
    if |block| == 0 {
      return Failure("Empty block number");
    }
    if block[0] == '0' && |block| > 1 {
      return Failure("Leading Zeros in Block");
    }
    for i := 0 to |block|
      invariant forall k :: 0 <= k < i ==> IsDigit(block[k])
    {
      if block[i] < '0' || block[i] > '9' {
        return Failure("Invalid block number");
      }
    }
    return Success(Value(block));
  }

  // ---------------------------------------------------------------------
  // Message parsing and validation

  /** The message `Check_Valid_Message` rebuilds from a request. */
  function Serialize(r: Request): string {
    match r.requestType
    case Read => "FS_READBLOCK " + r.username + " " + r.pathname + " " + Decimal(r.block)
    case Write => "FS_WRITEBLOCK " + r.username + " " + r.pathname + " " + Decimal(r.block)
    case Create => "FS_CREATE " + r.username + " " + r.pathname + " " + [r.fileType]
    case Delete => "FS_DELETE " + r.username + " " + r.pathname
  }

  /** The fields of the rebuilt message. */
  function FieldsOf(r: Request): (f: seq<string>)
    ensures |f| == Arity(r.requestType)
  {
    var head := [Keyword(r.requestType), r.username, r.pathname];
    match r.requestType
    case Read => head + [Decimal(r.block)]
    case Write => head + [Decimal(r.block)]
    case Create => head + [[r.fileType]]
    case Delete => head
  }

  lemma SerializeIsJoin(r: Request)
    ensures Serialize(r) == Join(FieldsOf(r), ' ')
  {
    var head := [Keyword(r.requestType), r.username, r.pathname];
    JoinSnoc([Keyword(r.requestType)], r.username, ' ');
    assert [Keyword(r.requestType)] + [r.username] == head[..2];
    JoinSnoc(head[..2], r.pathname, ' ');
    assert head[..2] + [r.pathname] == head;
    var j := Keyword(r.requestType) + " " + r.username + " " + r.pathname;
    assert Join(head, ' ') == j;
    match r.requestType
    case Read =>
      JoinSnoc(head, Decimal(r.block), ' ');
      assert "FS_READBLOCK " == Keyword(Read) + " ";
    case Write =>
      JoinSnoc(head, Decimal(r.block), ' ');
      assert "FS_WRITEBLOCK " == Keyword(Write) + " ";
    case Create =>
      JoinSnoc(head, [r.fileType], ' ');
      assert "FS_CREATE " == Keyword(Create) + " ";
    case Delete =>
      assert "FS_DELETE " == Keyword(Delete) + " ";
  }

  /** `Check_Valid_Message`: the message must equal its rebuilt form. */
  function CheckValidMessage(m: string, r: Request): (o: Outcome)
    ensures o == Pass <==> m == Join(FieldsOf(r), ' ')
  {
    SerializeIsJoin(r);
    if Serialize(r) != m then Fail("Invalid Input Request Message!") else Pass
  }

  /** `Check_Valid_Request` as written: the second length test re-examines the
      username, not the pathname. */
  function CheckValidRequest(r: Request): (o: Outcome)
    ensures o == Pass <==>
      (r.block < MAXFILEBLOCKS && 1 <= |r.username| <= MAXUSERNAME &&
       1 <= |r.pathname| <= MAXPATHNAME && r.pathname[0] == '/' && r.pathname[|r.pathname| - 1] != '/')
  {
    if r.block >= MAXFILEBLOCKS then Fail("Block Overflow")
    else if |r.username| > MAXUSERNAME || |r.username| == 0 then Fail("Username Length Overflow")
    else if |r.pathname| > MAXPATHNAME || |r.username| == 0 then Fail("Pathname Length Overflow")
    // the first character of an empty std::string is its terminating '\0'
    else if r.pathname == [] || r.pathname[0] != '/' || r.pathname[|r.pathname| - 1] == '/' then
      Fail("Pathname Not Valid")
    else Pass
  }

  /** The fields `>>` extracts from a message of type `t`, decoded into a
      request: the block number through `String_to_Int`, the entry type from
      "d" or "f". On a message that matched its pattern the extracted
      whitespace-separated words are exactly the space-separated fields. */
  function ExtractRequest(t: RequestType, f: seq<string>): Result<Request>
    requires |f| == Arity(t)
  {
    if t == Read || t == Write then
      match DecodeBlock(f[3])
      case Failure(e) => Failure(e)
      case Success(b) => Success(Request(t, f[1], f[2], b, NO_TYPE))
    else if t == Create then
      if f[3] == "d" then Success(Request(t, f[1], f[2], 0, 'd'))
      else if f[3] == "f" then Success(Request(t, f[1], f[2], 0, 'f'))
      else Failure("Invalid type")
    else Success(Request(t, f[1], f[2], 0, NO_TYPE))
  }

  /** `Message_Parsing`. */
  function MessageParsing(m: string): (r: Result<Request>)
    ensures r.Success? ==> Matches(m, r.value.requestType)
  {
    match FindRequestType(m)
    case Failure(e) => Failure(e)
    case Success(t) =>
      match ExtractRequest(t, SplitOn(m, ' '))
      case Failure(e) => Failure(e)
      case Success(req) =>
        var valid := CheckValidRequest(req);
        if CheckValidMessage(m, req).Fail? then Failure("Invalid Input Request Message!")
        else if valid.Fail? then Failure(valid.error)
        else Success(req)
  }

  /** The requests the server can accept: whitespace-free names, a request
      `Check_Valid_Request` passes, an entry type "d" or "f" on Create, and
      the fields the message does not carry at their parsed defaults. */
  predicate WellFormed(r: Request) {
    Token(r.username) && Token(r.pathname) && CheckValidRequest(r) == Pass &&
    (r.requestType == Create ==> r.block == 0 && (r.fileType == 'd' || r.fileType == 'f')) &&
    (r.requestType == Delete ==> r.block == 0) &&
    (r.requestType != Create ==> r.fileType == NO_TYPE)
  }

  /** On a message whose pattern matched and whose fields decoded, the
      re-serialisation check of `Check_Valid_Message` always passes: the
      patterns and `String_to_Int`'s leading-zero rule already force the
      message into its rebuilt form. */
  lemma CheckValidMessageRedundant(m: string, t: RequestType)
    requires Matches(m, t)
    requires ExtractRequest(t, SplitOn(m, ' ')).Success?
    ensures CheckValidMessage(m, ExtractRequest(t, SplitOn(m, ' ')).value) == Pass
  {
    MatchedIsJoin(m, t);
    ExtractedFields(t, SplitOn(m, ' '));
  }

  /** A request extracted from fields that fit its pattern rebuilds exactly
      those fields. */
  lemma ExtractedFields(t: RequestType, f: seq<string>)
    requires FieldsFit(f, t) && ExtractRequest(t, f).Success?
    ensures FieldsOf(ExtractRequest(t, f).value) == f
  {
    var req := ExtractRequest(t, f).value;
    if t == Delete {
      assert f == [f[0], f[1], f[2]];
    } else {
      assert f == [f[0], f[1], f[2], f[3]];
      if t == Create {
        assert [req.fileType] == f[3];
      }
    }
  }

  /** Every accepted message is well formed and is the serialisation of its request. */
  lemma ParsedIsWellFormed(m: string)
    requires MessageParsing(m).Success?
    ensures WellFormed(MessageParsing(m).value)
    ensures Serialize(MessageParsing(m).value) == m
  {
    var r := MessageParsing(m).value;
    var t, f := r.requestType, SplitOn(m, ' ');
    SerializeIsJoin(r);
    assert FindRequestType(m) == Success(t);
    assert ExtractRequest(t, f) == Success(r);
    assert CheckValidRequest(r) == Pass;
    ExtractedWellFormed(t, f);
  }

  /** A request extracted from fields that fit its pattern and that passes
      `Check_Valid_Request` is well formed. */
  lemma ExtractedWellFormed(t: RequestType, f: seq<string>)
    requires FieldsFit(f, t) && ExtractRequest(t, f).Success?
    requires CheckValidRequest(ExtractRequest(t, f).value) == Pass
    ensures WellFormed(ExtractRequest(t, f).value)
  {
  }

  /** Every well-formed request survives serialisation and parsing unchanged. */
  lemma ParseSerialize(r: Request)
    requires WellFormed(r)
    ensures MessageParsing(Serialize(r)) == Success(r)
  {
    var t := r.requestType;
    var f := FieldsOf(r);
    assert !IsSpace('/');
    if t == Read || t == Write {
      DecodeDecimal(r.block);
    }
    assert FieldsFit(f, t);
    MatchesJoin(f, t);
    SerializeIsJoin(r);
    assert FindRequestType(Serialize(r)) == Success(t);
    assert ExtractRequest(t, f) == Success(r);
  }

  // ---------------------------------------------------------------------
  // Pathnames (Pathname_Parsing)

  predicate ValidName(c: string) {
    c != "" && |c| <= MAXFILENAME
  }

  /** What `Pathname_Parsing` returns: the names between the slashes after
      the leading one, each nonempty and at most MAXFILENAME long. */
  function ParsePath(pathname: string): (r: Result<seq<string>>)
    ensures r.Success? ==> |r.value| >= 1
    ensures r.Failure? ==> r.error == "Invalid Path"
  {
    // the first character of an empty std::string is its terminating '\0'
    if pathname == [] || pathname[0] != '/' then Failure("Invalid Path")
    else
      var names := SplitOn(pathname[1..], '/');
      if forall k :: 0 <= k < |names| ==> ValidName(names[k]) then Success(names)
      else Failure("Invalid Path")
  }

  /** A parsed pathname is "/" followed by its names joined with "/", and no
      name is empty, too long or contains a slash. */
  lemma ParsePathJoin(pathname: string)
    requires ParsePath(pathname).Success?
    ensures pathname == "/" + Join(ParsePath(pathname).value, '/')
    ensures forall k :: 0 <= k < |ParsePath(pathname).value| ==>
      ValidName(ParsePath(pathname).value[k]) && '/' !in ParsePath(pathname).value[k]
  {
    JoinSplit(pathname[1..], '/');
  }

  /** Conversely, every nonempty list of valid slash-free names is what its
      pathname parses to. */
  lemma JoinParsePath(names: seq<string>)
    requires |names| >= 1
    requires forall k :: 0 <= k < |names| ==> ValidName(names[k]) && '/' !in names[k]
    ensures ParsePath("/" + Join(names, '/')) == Success(names)
  {
    var p := "/" + Join(names, '/');
    assert p[1..] == Join(names, '/');
    SplitJoin(names, '/');
  }

  /** `Pathname_Parsing`: scan the pathname with a slash appended, closing a
      name at every slash and rejecting an empty or overlong one. */
  method PathnameParsing(pathname: string) returns (r: Result<seq<string>>)
    ensures r == ParsePath(pathname)
  {
    if pathname == [] || pathname[0] != '/' {
      return Failure("Invalid Path");
    }
    var padded := pathname + "/";
    var names: seq<string> := [];
    var temp := "";
    var i := 1;
    while i < |padded|
      invariant 1 <= i <= |padded|
      invariant SplitOn(padded[1..i], '/') == names + [temp]
      invariant forall k :: 0 <= k < |names| ==> ValidName(names[k])
    {
      assert padded[1..i + 1] == padded[1..i] + [padded[i]];
      if padded[i] == '/' {
        if temp == "" || |temp| > MAXFILENAME {
          PathFailsAt(pathname, i, names, temp);
          return Failure("Invalid Path");
        }
        names := names + [temp];
        temp := "";
      } else {
        temp := temp + [padded[i]];
      }
      i := i + 1;
    }
    assert padded[1..i] == pathname[1..] + "/";
    var all := SplitOn(pathname[1..], '/');
    assert all + [""] == names + [temp];
    assert all == (all + [""])[..|all|];
    r := Success(names);
  }

  /** A slash at position `i` of the padded pathname that closes an invalid
      name makes the whole pathname invalid. */
  lemma PathFailsAt(pathname: string, i: nat, names: seq<string>, temp: string)
    requires 1 <= i <= |pathname|
    requires i == |pathname| || pathname[i] == '/'
    requires SplitOn((pathname + "/")[1..i], '/') == names + [temp]
    requires !ValidName(temp)
    ensures ParsePath(pathname).Failure?
  {
    var padded := pathname + "/";
    var a := padded[1..i + 1];
    assert a == padded[1..i] + ['/'];
    assert a[..|a| - 1] == padded[1..i];
    assert SplitOn(a, '/') == names + [temp] + [""];
    if i < |pathname| {
      var b := pathname[i + 1..];
      assert pathname[1..] == a + b;
      SplitKeepsPrefix(a, b, '/');
      assert SplitOn(pathname[1..], '/')[|names|] == temp;
    } else {
      assert pathname[1..] == padded[1..i];
      assert SplitOn(pathname[1..], '/')[|names|] == temp;
    }
  }

  // ---------------------------------------------------------------------
  // The free-block bitmap (disk_block)

  /** The lowest free block, if any. */
  function FirstFree(s: seq<bool>): (r: Option<nat>)
    ensures r.Some? ==> r.value < |s| && s[r.value] && forall j :: 0 <= j < r.value ==> !s[j]
    ensures r.None? ==> forall j :: 0 <= j < |s| ==> !s[j]
  {
    if s == [] then None
    else if s[0] then Some(0)
    else match FirstFree(s[1..])
      case None => None
      case Some(i) => Some(i + 1)
  }

  /** Allocation hands out blocks in increasing order: once the lowest free
      block is taken, the next allocation finds a higher one or none. */
  lemma AllocationsIncrease(s: seq<bool>, i: nat)
    requires FirstFree(s) == Some(i)
    ensures FirstFree(s[i := false]).None? || FirstFree(s[i := false]).value > i
  {
    var t := s[i := false];
    if FirstFree(t).Some? {
      var j := FirstFree(t).value;
      assert t[j];
    }
  }

  /** `Find_free_disk_block`: take the lowest free block and mark it used. */
  method FindFreeDiskBlock(diskBlock: array<bool>) returns (r: Result<nat>)
    requires diskBlock.Length == DISKSIZE
    modifies diskBlock
    ensures r.Success? <==> FirstFree(old(diskBlock[..])).Some?
    ensures r.Success? ==>
      FirstFree(old(diskBlock[..])) == Some(r.value) &&
      diskBlock[..] == old(diskBlock[..])[r.value := false]
    ensures r.Failure? ==> r.error == "No free disk blocks" && diskBlock[..] == old(diskBlock[..])
  {
    for i := 0 to DISKSIZE
      invariant forall j :: 0 <= j < i ==> !diskBlock[j]
    {
      if diskBlock[i] {
        FirstFreeAt(diskBlock[..], i);
        diskBlock[i] := false;
        return Success(i);
      }
    }
    assert forall j :: 0 <= j < |diskBlock[..]| ==> !diskBlock[..][j];
    return Failure("No free disk blocks");
  }

  lemma FirstFreeAt(s: seq<bool>, i: nat)
    requires i < |s| && s[i] && forall j :: 0 <= j < i ==> !s[j]
    ensures FirstFree(s) == Some(i)
  {
    var r := FirstFree(s);
    assert r.Some?;
    assert !(r.value < i) && !(i < r.value);
  }

  /** `Set_disk_block_status`: mark one block free or used. */
  method SetDiskBlockStatus(diskBlock: array<bool>, index: nat, free: bool)
    requires index < diskBlock.Length
    modifies diskBlock
    ensures diskBlock[..] == old(diskBlock[..])[index := free]
  {
    diskBlock[index] := free;
  }

  /** The number of free blocks in the bitmap. */
  function FreeCount(s: seq<bool>): nat
    decreases |s|
  {
    if s == [] then 0 else (if s[0] then 1 else 0) + FreeCount(s[1..])
  }

  /** Setting one entry changes the free count by exactly that entry's change:
      an allocation takes one free block and releasing it gives it back. */
  lemma {:induction false} FreeCountSet(s: seq<bool>, i: nat, free: bool)
    requires i < |s|
    ensures FreeCount(s[i := free]) + (if s[i] then 1 else 0) == FreeCount(s) + (if free then 1 else 0)
    decreases i
  {
    var t := s[i := free];
    if i > 0 {
      assert t[1..] == s[1..][i - 1 := free];
      FreeCountSet(s[1..], i - 1, free);
    } else {
      assert t[1..] == s[1..];
    }
  }

  // ---------------------------------------------------------------------
  // Inode checks

  /** The parts of `fs_inode` the checks read; `owner` is the C string in
      the owner field, "" for an unowned inode. */
  datatype Inode = Inode(owner: string, fileType: char, size: nat)

  /** `CheckUserValid`: an unowned inode is open to every user, an owned one
      to its owner only. */
  function CheckUserValid(inode: Inode, username: string): (o: Outcome)
    ensures o == Pass <==> inode.owner == "" || inode.owner == username
  {
    if inode.owner == "" then Pass
    else if inode.owner != username then Fail("User has no permission")
    else Pass
  }

  /** `CheckBlockOverflow`: a block index must address an existing block. */
  function CheckBlockOverflow(inode: Inode, block: nat): (o: Outcome)
    ensures o == Pass <==> block < inode.size
  {
    if block >= inode.size then Fail("Block index overflow") else Pass
  }

  /** `CheckInodeType`: the inode must be of the expected kind. */
  function CheckInodeType(inode: Inode, fileType: char): (o: Outcome)
    ensures o == Pass <==> inode.fileType == fileType
  {
    if inode.fileType != fileType then Fail("Invalid inode type") else Pass
  }
}
