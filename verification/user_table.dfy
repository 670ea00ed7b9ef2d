/** The in-memory user table, and its way to the passwd file and back (kernel/user.c:9-135). */
module UserTables {
  import opened Bytes
  import opened CString
  import opened Numerals
  import opened Tokens
  import opened DirentBlock
  import opened Passwd
  import opened Paths
  import opened Sessions
  import opened TextFiles
  import opened Users
  import Format
  import FileSystem
  import HomeLaws
  import LoginLaws
  import Layout

  // ------------------------------------------------------------------ fields

  // Printing "/home/%s" puts the directory in front.
  lemma HomePrinted(name: Bytes)
    requires NulFree(name)
    ensures NulFree(HOME_FORMAT) && Format.WellFormed(HOME_FORMAT, [Format.StrArg(name)])
    ensures Format.Ideal(HOME_FORMAT, [Format.StrArg(name)]) == HOME + name
  {
    hide Format.Ideal, Format.WellFormed;
    Format.PrefixPrinted(HOME, name);
    assert HOME + ['%', 's'] == HOME_FORMAT;
  }

  // snprintf of the home directory into a buffer of so many bytes.
  method PrintHome(name: Bytes, size: nat) returns (home: Bytes)
    requires NulFree(name) && size > 0
    ensures home == Upto(HOME + name, size - 1)
  {
    hide Format.Ideal, Format.WellFormed;
    HomePrinted(name);
    var field := new Byte[size];
    var n := Format.Vsnprintf(field, 0, size, HOME_FORMAT, [Format.StrArg(name)]);
    home := CStr(field[..]);
    CStrIs(field[..], Upto(HOME + name, size - 1));
  }

  // The word a position points at, or what stands for a missing one.
  function WordText(b: Bytes, at: int, missing: Bytes): Bytes
    requires at <= |b|
  {
    if at < 0 then missing else CStr(b[at..])
  }

  // A number field: the value of the word, as wide as the field, or zero for a missing one.
  method NumberAt(b: Bytes, at: int, bound: nat, ghost ts: seq<Bytes>, ghost i: nat) returns (v: nat)
    requires bound > 0 && at <= |b| && (at == NULL <==> |ts| <= i)
    requires i < |ts| ==> WordText(b, at, []) == ts[i] && -INT_LIMIT < AtoiValue(ts[i]) < INT_LIMIT
    ensures v == Number(ts, i, bound)
  {
    if at == NULL {
      return 0;
    }
    var n := Atoi(WordText(b, at, []));
    v := n % bound;
  }

  // The fields of a line, once its words are found (kernel/user.c:31-47).
  method ReadUser(b: Bytes, at: seq<int>, ghost line: Bytes) returns (u: User)
    requires |at| == 8 && (forall i :: 0 <= i < 8 ==> WordAt(b, at, TokensOf(line, COLONS), i))
    requires at[0] != NULL && at[1] != NULL && LineNumbersFit(line) && NulFree(line)
    ensures ParseLine(line) == Some(u)
  {
    hide TokensOf, AtoiValue, WordAt, WordText, CStr, NulFree, Number, Upto, LineNumbersFit, ParseLine;
    ghost var ts := TokensOf(line, COLONS);
    DefaultsNulFree();
    NumbersAt(line);
    WordIs(b, at, line, 0, []);
    WordIs(b, at, line, 1, []);
    WordIs(b, at, line, 2, []);
    WordIs(b, at, line, 3, []);
    WordIs(b, at, line, 4, []);
    WordIs(b, at, line, 5, []);
    WordIs(b, at, line, 6, SLASH_HOME);
    WordIs(b, at, line, 7, KSH);
    var name := StoreField(WordText(b, at[0], []), 32);
    var password := StoreField(WordText(b, at[1], []), 32);
    var uid := NumberAt(b, at[2], 0x1_0000_0000, ts, 2);
    var gid := NumberAt(b, at[3], 0x1_0000_0000, ts, 3);
    var isRoot := NumberAt(b, at[4], 0x100, ts, 4);
    var inSudo := NumberAt(b, at[5], 0x100, ts, 5);
    var home := SLASH_HOME;
    if isRoot == 0 {
      home := StoreField(WordText(b, at[6], SLASH_HOME), 40);
    }
    var shell := StoreField(WordText(b, at[7], KSH), 32);
    u := User(name, password, uid, gid, isRoot, inSudo, home, shell);
    ParsedAs(line, ts, u);
  }

  // The fields of a user, one by one.
  lemma ParsedAs(line: Bytes, ts: seq<Bytes>, u: User)
    requires ts == TokensOf(line, COLONS) && |ts| >= 2
    requires u.name == Upto(ts[0], NAME_MAX) && u.password == Upto(ts[1], NAME_MAX)
    requires u.uid == Number(ts, 2, 0x1_0000_0000) && u.gid == Number(ts, 3, 0x1_0000_0000)
    requires u.isRoot == Number(ts, 4, 0x100) && u.inSudo == Number(ts, 5, 0x100)
    requires u.home == if u.isRoot != 0 then SLASH_HOME else Upto(if 6 < |ts| then ts[6] else SLASH_HOME, HOME_MAX)
    requires u.shell == Upto(if 7 < |ts| then ts[7] else KSH, NAME_MAX)
    ensures ParseLine(line) == Some(u)
  {
    hide TokensOf, Number, Upto;
  }

  lemma NumbersAt(line: Bytes)
    requires LineNumbersFit(line)
    ensures var ts := TokensOf(line, COLONS);
            && (2 < |ts| ==> -INT_LIMIT < AtoiValue(ts[2]) < INT_LIMIT)
            && (3 < |ts| ==> -INT_LIMIT < AtoiValue(ts[3]) < INT_LIMIT)
            && (4 < |ts| ==> -INT_LIMIT < AtoiValue(ts[4]) < INT_LIMIT)
            && (5 < |ts| ==> -INT_LIMIT < AtoiValue(ts[5]) < INT_LIMIT)
  {
    hide TokensOf, AtoiValue;
  }

  lemma DefaultsNulFree()
    ensures NulFree(SLASH_HOME) && NulFree(KSH) && NulFree([])
  {
  }

  // One word, or what stands for it.
  lemma WordIs(b: Bytes, at: seq<int>, line: Bytes, i: nat, missing: Bytes)
    requires i < |at| && WordAt(b, at, TokensOf(line, COLONS), i) && NulFree(line) && NulFree(missing)
    ensures var ts := TokensOf(line, COLONS);
            && at[i] <= |b| && (at[i] == NULL <==> |ts| <= i)
            && WordText(b, at[i], missing) == (if i < |ts| then ts[i] else missing)
            && NulFree(WordText(b, at[i], missing))
  {
    hide TokensOf, CStr;
    TokensNulFree(line, COLONS);
  }

  // Words found and words missing.
  lemma WordsRead(b: Bytes, at: seq<int>, ts: seq<Bytes>)
    requires forall i :: 0 <= i < |at| ==> WordAt(b, at, ts, i)
    ensures forall i :: 0 <= i < |at| && i < |ts| ==> 0 <= at[i] <= |b| && CStr(b[at[i]..]) == ts[i]
    ensures forall i :: |ts| <= i < |at| ==> at[i] == NULL
    ensures forall i :: 0 <= i < |at| ==> (at[i] == NULL <==> |ts| <= i)
  {
    hide CStr;
    forall i | 0 <= i < |at|
      ensures i < |ts| ==> 0 <= at[i] <= |b| && CStr(b[at[i]..]) == ts[i]
      ensures |ts| <= i ==> at[i] == NULL
    {
      assert WordAt(b, at, ts, i);
    }
  }

  // ------------------------------------------------------------------ the table

  // Fields are C strings.
  ghost predicate StringsOk(u: User) {
    NulFree(u.name) && NulFree(u.password) && NulFree(u.home) && NulFree(u.shell)
  }

  ghost predicate AllStrings(us: seq<User>) { forall i :: 0 <= i < |us| ==> StringsOk(us[i]) }

  lemma NewStrings(us: seq<User>, name: Bytes, password: Bytes, isRoot: U8)
    requires AllStrings(us) && NulFree(name) && NulFree(password)
    ensures AllStrings(Added(us, name, password, isRoot))
  {
    hide IndexOf;
    if |us| < MAX_USERS {
      assert StringsOk(NewUser(|us|, name, password, isRoot));
    }
  }

  lemma {:induction false} ParsedStrings(line: Bytes)
    requires NulFree(line)
    ensures ParseLine(line).Some? ==> StringsOk(ParseLine(line).value)
  {
    hide TokensOf, AtoiValue;
    TokensNulFree(line, COLONS);
  }

  lemma {:induction false} TokensNulFree(s: Bytes, delim: Bytes)
    requires NulFree(s)
    ensures forall i :: 0 <= i < |TokensOf(s, delim)| ==> NulFree(TokensOf(s, delim)[i])
    decreases |s|
  {
    hide TokensOf, SkipRun, WordRun, GapsOf;
    FirstToken(s, delim);
    var k := SkipRun(s, delim);
    if k < |s| {
      var m := WordRun(s[k..], delim);
      TokensNulFree(s[k + m..], delim);
    }
  }

  // One line of the load loop, on lists.
  lemma LoadStep(text: Bytes, k: nat, n: nat)
    requires text != [] && n > 0 && k == FirstIndex(text, LINE_END) && NumbersFit(text) && NulFree(text)
    ensures var rest := if k == |text| then [] else text[k + 1..];
            && k <= |text| && LineNumbersFit(text[..k]) && NumbersFit(rest) && NulFree(rest) && NulFree(text[..k])
            && UsersOf(text, n) ==
               match ParseLine(text[..k]) case Some(u) => [u] + UsersOf(rest, n - 1) case None => UsersOf(rest, n)
  {
    hide LineNumbersFit, FirstIndex, ParseLine;
  }

  lemma LoadDone(us: seq<User>, text: Bytes, n: nat)
    requires |us| <= n && (text == [] || |us| == n)
    ensures us + UsersOf(text, n - |us|) == us
  {
  }

  // What is left to load: the text at line, or nothing.
  ghost predicate Ahead(b: Bytes, line: int, rest: Bytes) {
    && NumbersFit(rest) && NulFree(rest)
    && if line == NULL then rest == []
       else
         && 0 <= line < |b| && Terminated(b[line..]) && CStr(b[line..]) == rest
         && (b[line] == NUL <==> rest == [])
  }

  lemma StartAhead(b: Bytes)
    requires Terminated(b) && NumbersFit(CStr(b))
    ensures Ahead(b, 0, CStr(b))
  {
    hide NumbersFit;
    assert b[0..] == b;
    TextAt(b, 0, 0);
  }

  lemma AheadLine(b: Bytes, line: int, rest: Bytes)
    requires Ahead(b, line, rest)
    ensures if line == NULL then rest == [] else 0 <= line < |b| && (b[line] == NUL <==> rest == [])
  {
    hide NumbersFit, CStr;
  }

  // The home of a new user; the attempt by path when that failed changes nothing.
  method GiveHome(fs: FileSystem.Fs, name: Bytes)
    requires fs.Valid() && HomeReady(fs.S(), name) && NulFree(name)
    modifies fs.store
    ensures fs.Valid() && fs.S() == HomePath(old(fs.S()), name)
  {
    hide Layout.Inv, Layout.Abs, SessionOk, HomeReady, HomePath, Upto, MkdirPath, NewReady, HomeFails, WithHome;
    HomeLaws.FallbackAfter(fs.S(), name);
    var made := fs.CreateHome(name);
    if made < 0 {
      var path := PrintHome(name, FALLBACK_SIZE);
      var r := fs.MakeDirectory(path);
    }
  }

  class UserTable {
    const users: array<User>
    var count: nat
    var current: int
    var firstBoot: bool
    var sudoElevated: bool

    ghost predicate Valid()
      reads this, users
    {
      users.Length == MAX_USERS && count <= MAX_USERS && AllStrings(users[..count]) && NOBODY <= current < MAX_USERS
    }

    ghost function Table(): seq<User>
      reads this, users
      requires count <= users.Length
    {
      users[..count]
    }

    constructor ()
      ensures Valid() && fresh(users) && Table() == [] && current == NOBODY && !firstBoot && !sudoElevated
    {
      users := new User[MAX_USERS];
      count, current, firstBoot, sudoElevated := 0, NOBODY, false, false;
    }

    // The strcmp search all operations start with.
    method Find(name: Bytes) returns (i: nat)
      requires Valid()
      ensures i == IndexOf(Table(), name)
    {
      i := 0;
      while i < count && users[i].name != name
        invariant i <= count && forall j :: 0 <= j < i ==> users[j].name != name
      {
        i := i + 1;
      }
      IndexIs(Table(), name, i);
    }

    // users_save: the file becomes as much of the table's text as the buffer holds (kernel/user.c:54-66).
    method Save(fs: FileSystem.Fs)
      requires Valid() && fs.Valid() && WriteReady(fs.S(), PASSWD)
      modifies fs.store
      ensures Valid() && Table() == old(Table())
      ensures fs.Valid() && fs.S() == WritePath(old(fs.S()), PASSWD, SavedText(Table()))
    {
      hide Layout.Inv, Layout.Abs, SessionOk, WriteReady, WritePath, PasswdText;
      var buffer := new Byte[PASSWD_BUFFER](i => NUL);
      var pos := Print(buffer);
      var r := fs.Write(PASSWD, buffer[..pos]);
    }

    // The loop of users_save: the position never reaches the buffer size.
    method Print(buffer: array<Byte>) returns (pos: nat)
      requires Valid() && buffer.Length == PASSWD_BUFFER
      modifies buffer
      ensures Valid() && Table() == old(Table())
      ensures pos < PASSWD_BUFFER && buffer[..pos] == Upto(PasswdText(Table()), PASSWD_BUFFER - 1)
    {
      hide Format.Ideal, Format.WellFormed, PasswdText, JoinFields, FieldsOf, Arguments, StringsOk;
      ghost var us := Table();
      pos := 0;
      var i := 0;
      assert us[..0] == [] && PasswdText([]) == [] by { TextOfNone(); }
      while i < count
        invariant i <= count && pos < PASSWD_BUFFER && Table() == us && Valid()
        invariant buffer[..pos] == Upto(PasswdText(us[..i]), PASSWD_BUFFER - 1)
      {
        assert StringsOk(us[i]);
        PrintsLine(us, i);
        ghost var before := buffer[..pos];
        var n := Format.Vsnprintf(buffer, pos, PASSWD_BUFFER - pos, FORMAT, Arguments(users[i]));
        ghost var line := JoinFields(FieldsOf(us[i])) + [LINE_END];
        assert buffer[..pos + n] == before + line[..n];
        UptoMore(PasswdText(us[..i]), line, n, PASSWD_BUFFER - 1);
        pos := pos + n;
        i := i + 1;
      }
      assert us[..i] == us;
    }

    // user_add (kernel/user.c:76-108): the entry, its home directory, and the file.
    method Add(fs: FileSystem.Fs, name: Bytes, password: Bytes, isRoot: U8) returns (rc: int)
      requires Valid() && fs.Valid() && NulFree(name) && NulFree(password)
      requires Accepts(Table(), name) ==> AddReady(fs.S(), name, isRoot)
      modifies `count, users, fs.store
      ensures Valid() && fs.Valid() && Table() == Added(old(Table()), name, password, isRoot)
      ensures rc == if Accepts(old(Table()), name) then 0 else -1
      ensures users[..] == if rc == 0 then old(users[..])[old(count) := NewUser(old(count), name, password, isRoot)]
                           else old(users[..])
      ensures LoginLaws.UserAdded(old(Table()), Table(), name, password, isRoot, rc)
      ensures fs.S() == if rc == 0 then WritePath(AfterHome(old(fs.S()), name, isRoot), PASSWD, SavedText(Table()))
                        else old(fs.S())
      ensures rc == 0 ==> if isRoot != 0 then AfterHome(old(fs.S()), name, isRoot) == old(fs.S())
                          else exists h :: HomeLaws.Homed(old(fs.S()), AfterHome(old(fs.S()), name, isRoot), name, h)
    {
      hide IndexOf, AllStrings, Layout.Inv, Layout.Abs, SessionOk, WriteReady, WritePath, HomeReady, HomePath, SavedText, NulFree;
      hide NewUser, LoginLaws.UserAdded, HomeLaws.Homed;
      ghost var us := Table();
      if Accepts(us, name) && isRoot == 0 {
        HomeLaws.HomeDone(fs.S(), name);
      }
      LoginLaws.AddDone(us, name, password, isRoot);
      NewStrings(us, name, password, isRoot);
      if count >= MAX_USERS {
        return -1;
      }
      var i := Find(name);
      if i < count {
        return -1;
      }
      FillSlot(name, password, isRoot);
      if isRoot == 0 {
        GiveHome(fs, name);
      }
      count := count + 1;
      assert Table() == us + [NewUser(|us|, name, password, isRoot)];
      Save(fs);
      rc := 0;
    }

    // The record of a new user, in the first slot that is not in use (kernel/user.c:81-95).
    method FillSlot(name: Bytes, password: Bytes, isRoot: U8)
      requires Valid() && count < MAX_USERS && NulFree(name) && NulFree(password)
      modifies users
      ensures users[..] == old(users[..])[count := NewUser(count, name, password, isRoot)] && users[..count] == old(users[..count])
    {
      hide AllStrings, NulFree;
      var uid := if isRoot != 0 then 0 else 1000 + count - 1;
      var storedName := StoreField(name, 32);
      var storedPassword := StoreField(password, 32);
      var home := SLASH_HOME;
      if isRoot == 0 {
        home := PrintHome(name, HOME_MAX + 1);
      }
      users[count] := User(storedName, storedPassword, uid, uid, isRoot, 0, home, KSH);
    }

    // The name the kernel reports for whoever is logged in, read from the array at the index alone.
    ghost function Reported(): Bytes
      reads this, users
      requires Valid()
    {
      if sudoElevated then ROOT_NAME else if current >= 0 then users[current].name else NOBODY_NAME
    }

    // user_get_name (kernel/user.c:161-164); the other accessors read the same record.
    method GetName() returns (name: Bytes)
      requires Valid()
      ensures name == Reported()
      ensures name == if sudoElevated then ['r', 'o', 'o', 't']
                      else if current >= 0 then users[current].name else ['n', 'o', 'b', 'o', 'd', 'y']
    {
      if sudoElevated {
        return ROOT_NAME;
      }
      name := if current >= 0 then users[current].name else NOBODY_NAME;
    }

    // user_logout (kernel/user.c:150-154).
    method Logout()
      modifies `current, `sudoElevated
      ensures current == NOBODY && !sudoElevated
    {
      current := NOBODY;
      sudoElevated := false;
    }

    // user_login (kernel/user.c:137-148): the first user with that name and password, and the way to the home directory.
    method Login(fs: FileSystem.Fs, name: Bytes, password: Bytes) returns (rc: int)
      requires Valid() && fs.Valid()
      requires LoginIndex(Table(), name, password) < count ==>
                 ChdirReady(fs.S(), Table()[LoginIndex(Table(), name, password)].home)
      modifies `current, `sudoElevated, fs`cwdInode, fs.cwd
      ensures Valid() && fs.Valid()
      ensures var k := LoginIndex(Table(), name, password);
              if k < count
              then rc == 0 && current == k && !sudoElevated && fs.S() == Chdir(old(fs.S()), users[k].home) && Reported() == name
              else rc == -1 && current == old(current) && sudoElevated == old(sudoElevated) && fs.S() == old(fs.S())
    {
      hide Layout.Inv, Layout.Abs, SessionOk, ChdirReady, Chdir, AllStrings, LoginIndex;
      var i := 0;
      while i < count && !(users[i].name == name && users[i].password == password)
        invariant i <= count && forall j :: 0 <= j < i ==> !(users[j].name == name && users[j].password == password)
      {
        i := i + 1;
      }
      LoginIndexIs(Table(), name, password, i);
      if i == count {
        return -1;
      }
      current := i;
      sudoElevated := false;
      var changed := fs.ChangeDir(users[i].home);
      rc := 0;
    }

    // memmove of the entries behind i, one place down.
    method CloseGap(i: nat)
      requires Valid() && i < count
      modifies users
      ensures users[..] == Closed(old(users[..]), count, i)
    {
      ghost var was := users[..];
      var k := i;
      assert was[..i] + was[i + 1..i + 1] + was[i..] == was;
      while k < count - 1
        invariant i <= k < count
        invariant users[..] == was[..i] + was[i + 1..k + 1] + was[k..]
      {
        GapStep(was, i, k);
        users[k] := users[k + 1];
        k := k + 1;
      }
    }

    method RemoveAt(i: nat)
      requires Valid() && i < count
      modifies `count, users
      ensures Valid() && Table() == old(Table())[..i] + old(Table())[i + 1..] && count == old(count) - 1
      ensures users[..] == Closed(old(users[..]), old(count), i)
    {
      hide AllStrings, Closed;
      ghost var us := Table();
      ghost var was := users[..];
      CloseGap(i);
      TableClosed(was, count, i);
      count := count - 1;
      assert Table() == users[..][..count];
      assert Table() == us[..i] + us[i + 1..];
      StringsRemoved(us, i);
    }

    // user_del (kernel/user.c:110-124): a removed user is logged out, anybody else keeps the index.
    method Delete(fs: FileSystem.Fs, name: Bytes) returns (rc: int)
      requires Valid() && fs.Valid() && WriteReady(fs.S(), PASSWD)
      modifies this`count, this`current, this`sudoElevated, users, fs.store
      ensures Valid() && fs.Valid() && Table() == Removed(old(Table()), name)
      ensures rc == if Removable(old(Table()), name) then 0 else -1
      ensures current == if Removable(old(Table()), name) && old(current) == IndexOf(old(Table()), name)
                         then NOBODY else old(current)
      ensures users[..] == if rc == 0 then Closed(old(users[..]), old(count), IndexOf(old(Table()), name)) else old(users[..])
      ensures LoginLaws.Unlisted(old(Table()), Table(), name, rc)
      ensures rc == 0 && TableOk(old(Table())) && 0 <= current ==>
                (users[current] == old(users[current]) <==>
                 current < IndexOf(old(Table()), name) || current >= old(count) - 1)
      ensures fs.S() == if rc == 0 then WritePath(old(fs.S()), PASSWD, SavedText(Table()))
                        else old(fs.S())
    {
      hide IndexOf, Layout.Inv, Layout.Abs, SessionOk, WriteReady, WritePath, PasswdText, Upto, AllStrings, TableOk, Closed;
      hide LoginLaws.Unlisted;
      ghost var was := users[..];
      LoginLaws.RemoveDone(Table(), name);
      var i := Find(name);
      if i == count || users[i].isRoot != 0 {
        return -1;
      }
      if i == current {
        Logout();
      }
      RemoveAt(i);
      assert was[..old(count)] == old(Table());
      if TableOk(old(Table())) && 0 <= current {
        LoginAfterRemoval(was, old(count), name, current);
      }
      Save(fs);
      rc := 0;
    }

    // user_add_sudo (kernel/user.c:126-135).
    method AddSudo(fs: FileSystem.Fs, name: Bytes) returns (rc: int)
      requires Valid() && fs.Valid() && WriteReady(fs.S(), PASSWD)
      modifies users, fs.store
      ensures Valid() && fs.Valid() && Table() == Sudoed(old(Table()), name)
      ensures rc == if IndexOf(old(Table()), name) < |old(Table())| then 0 else -1
      ensures users[count..] == old(users[count..]) && LoginLaws.Marked(old(Table()), Table(), name, rc)
      ensures fs.S() == if rc == 0 then WritePath(old(fs.S()), PASSWD, SavedText(Table()))
                        else old(fs.S())
    {
      hide IndexOf, Layout.Inv, Layout.Abs, SessionOk, WriteReady, WritePath, PasswdText, Upto, StringsOk, LoginLaws.Marked;
      ghost var us := Table();
      LoginLaws.SudoDone(us, name);
      var i := Find(name);
      if i == count {
        return -1;
      }
      users[i] := users[i].(inSudo := 1);
      assert Table() == us[i := us[i].(inSudo := 1)];
      StringsSudoed(us, i);
      Save(fs);
      rc := 0;
    }

    // One line of users_load (kernel/user.c:19-50).
    method LoadLine(buffer: array<Byte>, line: nat, ghost rest: Bytes) returns (next: int, ghost rest': Bytes)
      requires Valid() && count < MAX_USERS && Ahead(buffer[..], line, rest) && rest != []
      modifies `count, users, buffer
      ensures Valid() && Ahead(buffer[..], next, rest') && |rest'| < |rest|
      ensures old(Table()) + UsersOf(rest, MAX_USERS - |old(Table())|) == Table() + UsersOf(rest', MAX_USERS - count)
    {
      hide UsersOf, StringsOk, Ahead;
      ghost var us := Table();
      var u, ok;
      next, u, ok, rest' := SplitLine(buffer, line, rest, MAX_USERS - count);
      if ok {
        users[count] := u;
        count := count + 1;
        assert Table() == us + [u];
      }
    }

    // The loop of users_load over the text in the buffer (kernel/user.c:14-51).
    method LoadText(buffer: array<Byte>)
      requires users.Length == MAX_USERS && NOBODY <= current < MAX_USERS
      requires Terminated(buffer[..]) && NumbersFit(CStr(buffer[..]))
      modifies `count, users, buffer
      ensures Valid() && Table() == UsersOf(CStr(old(buffer[..])), MAX_USERS)
    {
      hide Ahead, UsersOf, StringsOk, CStr, NumbersFit, Terminated;
      ghost var text := CStr(buffer[..]);
      ghost var rest := text;
      StartAhead(buffer[..]);
      count := 0;
      var line := 0;
      assert Table() == [] && [] + UsersOf(text, MAX_USERS) == UsersOf(text, MAX_USERS);
      AheadLine(buffer[..], line, rest);
      while line != NULL && buffer[line] != NUL && count < MAX_USERS
        invariant Valid() && Ahead(buffer[..], line, rest)
        invariant line != NULL ==> 0 <= line < buffer.Length && (buffer[line] == NUL <==> rest == [])
        invariant line == NULL ==> rest == []
        invariant Table() + UsersOf(rest, MAX_USERS - count) == UsersOf(text, MAX_USERS)
        decreases |rest|
      {
        line, rest := LoadLine(buffer, line, rest);
        AheadLine(buffer[..], line, rest);
      }
      LoadDone(Table(), rest, MAX_USERS);
    }

    // users_load (kernel/user.c:9-52).
    method Load(fs: FileSystem.Fs)
      requires users.Length == MAX_USERS && Valid() && fs.Valid() && ReadReady(fs.S(), PASSWD)
      requires Resolve(fs.S().tree, fs.S().dir, PASSWD) != NO_ENTRY ==> NumbersFit(FileText(fs.S(), PASSWD, PASSWD_BUFFER))
      modifies `count, `firstBoot, users
      ensures Valid() && fs.Valid() && fs.S() == old(fs.S())
      ensures var there := Resolve(fs.S().tree, fs.S().dir, PASSWD) != NO_ENTRY
                           && ReadPath(fs.S(), PASSWD, PASSWD_BUFFER - 1) != [];
              && firstBoot == (old(firstBoot) || !there)
              && Table() == if there then UsersOf(FileText(fs.S(), PASSWD, PASSWD_BUFFER), MAX_USERS) else old(Table())
    {
      hide ReadReady, Resolve, ReadPath, CStr, Terminated, FileText, Layout.Inv, Layout.Abs, SessionOk, UsersOf, NumbersFit, AllStrings;
      var buffer := new Byte[PASSWD_BUFFER];
      var size := ReadText(fs, PASSWD, buffer);
      if size <= 0 {
        firstBoot := true;
        return;
      }
      LoadText(buffer);
    }
  }

  // The newline of a line becomes its NUL; the position behind it, or NULL.
  method CutLine(buffer: array<Byte>, line: nat, k: nat) returns (next: int)
    requires line <= buffer.Length && Terminated(buffer[line..])
    requires k == line + FirstIndex(CStr(buffer[line..]), LINE_END)
    modifies buffer
    ensures var s := old(CStr(buffer[line..]));
            && k <= line + |s| && Terminated(buffer[line..]) && CStr(buffer[line..]) == s[..k - line]
            && (if k == line + |s| then next == NULL
                else next == k + 1 < buffer.Length && Terminated(buffer[next..]) && CStr(buffer[next..]) == s[k + 1 - line..])
  {
    hide CStr;
    ghost var b := buffer[..];
    assert b[line..] == buffer[line..];
    TextAt(b, line, k);
    if buffer[k] == LINE_END {
      buffer[k] := NUL;
      TextCut(b, buffer[..], line, k);
      assert buffer[..][line..] == buffer[line..] && buffer[..][k + 1..] == buffer[k + 1..];
      next := k + 1;
    } else {
      next := NULL;
      assert CStr(buffer[line..])[..k - line] == CStr(buffer[line..]);
    }
  }

  // The words of a line and the user they make; the text behind the line stays.
  method LineUser(buffer: array<Byte>, line: nat, ghost text: Bytes, ghost next: int) returns (u: User, ok: bool)
    requires line <= buffer.Length && Terminated(buffer[line..]) && CStr(buffer[line..]) == text
    requires LineNumbersFit(text) && NulFree(text)
    requires next != NULL ==> next == line + |text| + 1 < buffer.Length && Terminated(buffer[next..])
    modifies buffer
    ensures ok == ParseLine(text).Some?
    ensures ok ==> ParseLine(text) == Some(u) && StringsOk(u)
    ensures next != NULL ==> Terminated(buffer[next..]) && CStr(buffer[next..]) == old(CStr(buffer[next..]))
  {
    hide CStr, TokensOf, LineNumbersFit, AtoiValue, Points;
    var t := new Tokenizer(buffer);
    var at := new int[8];
    ghost var b := buffer[..];
    TakeWords(t, line, COLONS, at);
    if next != NULL {
      assert buffer[next..] == b[next..] by {
        assert buffer[next..] == buffer[line + |text|..][1..];
        assert b[next..] == b[line + |text|..][1..];
      }
      assert b[next..] == old(buffer[next..]);
    }
    WordsRead(buffer[..], at[..], TokensOf(text, COLONS));
    assert at[..][0] == at[0] && at[..][1] == at[1];
    ParsedStrings(text);
    ok := at[0] != NULL && at[1] != NULL;
    if ok {
      u := ReadUser(buffer[..], at[..], text);
    } else {
      u := User([], [], 0, 0, 0, 0, [], []);
    }
  }

  lemma GapStep(was: seq<User>, i: nat, k: nat)
    requires i <= k && k + 1 < |was|
    ensures var now := was[..i] + was[i + 1..k + 1] + was[k..];
            now[k := now[k + 1]] == was[..i] + was[i + 1..k + 2] + was[k + 1..]
  {
  }

  lemma TableClosed(was: seq<User>, count: nat, i: nat)
    requires i < count <= |was|
    ensures Closed(was, count, i)[..count - 1] == was[..count][..i] + was[..count][i + 1..]
  {
  }

  // A line is cut off and read; what follows is ahead.
  method SplitLine(buffer: array<Byte>, line: nat, ghost rest: Bytes, ghost n: nat)
    returns (next: int, u: User, ok: bool, ghost rest': Bytes)
    requires Ahead(buffer[..], line, rest) && rest != [] && n > 0
    modifies buffer
    ensures Ahead(buffer[..], next, rest') && |rest'| < |rest| && (ok ==> StringsOk(u))
    ensures UsersOf(rest, n) == if ok then [u] + UsersOf(rest', n - 1) else UsersOf(rest', n)
  {
    hide CStr, NumbersFit, LineNumbersFit, UsersOf, ParseLine, TokensOf, FirstIndex, StringsOk, NulFree, Terminated;
    assert buffer[..][line..] == buffer[line..];
    var k := Strchr(buffer, line, LINE_END);
    LoadStep(rest, k - line, n);
    next := CutLine(buffer, line, k);
    rest' := if k - line == |rest| then [] else rest[k - line + 1..];
    u, ok := LineUser(buffer, line, rest[..k - line], next);
    if next != NULL {
      TextAt(buffer[..], next, next);
      assert buffer[..][next..] == buffer[next..];
    }
  }

  lemma TextOfNone()
    ensures PasswdText([]) == []
  {
  }

  lemma PrintsLine(us: seq<User>, i: nat)
    requires i < |us| && StringsOk(us[i])
    ensures NulFree(FORMAT) && Format.WellFormed(FORMAT, Arguments(us[i]))
    ensures Format.Ideal(FORMAT, Arguments(us[i])) == JoinFields(FieldsOf(us[i])) + [LINE_END]
    ensures PasswdText(us[..i + 1]) == PasswdText(us[..i]) + (JoinFields(FieldsOf(us[i])) + [LINE_END])
  {
    hide Format.Ideal, Format.WellFormed, PasswdText, JoinFields, FieldsOf, Arguments, FieldFormat;
    FormatIs();
    LinePrinted(us[i]);
    PasswdTextSnoc(us[..i], us[i]);
    assert us[..i + 1] == us[..i] + [us[i]];
  }

  // Cutting piece by piece is cutting the whole.
  lemma UptoMore(text: Bytes, line: Bytes, n: nat, max: nat)
    requires n == if |line| < max - |Upto(text, max)| then |line| else max - |Upto(text, max)|
    ensures n <= |line| && Upto(text, max) + line[..n] == Upto(text + line, max)
  {
  }

  lemma StringsRemoved(us: seq<User>, i: nat)
    requires AllStrings(us) && i < |us|
    ensures AllStrings(us[..i] + us[i + 1..])
  {
  }

  lemma StringsSudoed(us: seq<User>, i: nat)
    requires AllStrings(us) && i < |us|
    ensures AllStrings(us[i := us[i].(inSudo := 1)])
  {
    assert StringsOk(us[i]);
  }
}
