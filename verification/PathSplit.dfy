/** Paths of folders: getParentPathAndName of tsk/auto/tsk_db.cpp and hash of tsk/auto/db_sqlite.cpp. */
module PathSplit {

  const MAX_PATH_LENGTH := 2048

  datatype Parts = Parts(parent: string, name: string)

  predicate NoSlash(s: string) { forall i :: 0 <= i < |s| ==> s[i] != '/' }

  lemma NoSlashJoined(a: string, b: string)
    ensures NoSlash(a + b) <==> NoSlash(a) && NoSlash(b)
  {
    assert forall i :: 0 <= i < |a| ==> (a + b)[i] == a[i];
    assert forall i :: 0 <= i < |b| ==> (a + b)[|a| + i] == b[i];
  }

  predicate StartsWithSlash(s: string) { |s| > 0 && s[0] == '/' }

  predicate EndsWithSlash(s: string) { |s| > 0 && s[|s| - 1] == '/' }

  /** strrchr for '/': the position of the last slash, or -1. */
  function LastSlash(s: string): (k: int)
    ensures -1 <= k < |s|
    ensures k >= 0 ==> s[k] == '/'
    ensures forall j :: k < j < |s| ==> s[j] != '/'
    decreases |s|
  {
    if s == [] then -1
    else if s[|s| - 1] == '/' then |s| - 1
    else LastSlash(s[..|s| - 1])
  }

  /** A leading slash is added when there is none, and one trailing slash is dropped. */
  function Normal(path: string): string {
    if path == "" || path == "/" then "/"
    else
      var full := if path[0] != '/' then "/" + path else path;
      if full[|full| - 1] == '/' then full[..|full| - 1] else full
  }

  /** The folder and the final name of a path, cut after the last slash. */
  function Split(path: string): Parts {
    var normal := Normal(path);
    var k := LastSlash(normal);
    Parts(normal[..k + 1], normal[k + 1..])
  }

  /** A normal path begins with a slash, so there is always one to cut at. */
  lemma NormalHasSlash(path: string)
    ensures StartsWithSlash(Normal(path)) && LastSlash(Normal(path)) >= 0
    ensures |Normal(path)| <= |path| + 1
  {
    hide LastSlash;
    SlashFound(Normal(path));
  }

  lemma SlashFound(s: string)
    requires StartsWithSlash(s)
    ensures LastSlash(s) >= 0
  {
    hide LastSlash;
  }

  /** Only one way of cutting a string leaves a folder ending in a slash and a name without one. */
  lemma CutIsUnique(parent: string, name: string)
    requires EndsWithSlash(parent) && NoSlash(name)
    ensures LastSlash(parent + name) == |parent| - 1
  {
    var s := parent + name;
    hide LastSlash;
    assert s[|parent| - 1] == '/';
    assert forall j :: |parent| <= j < |s| ==> s[j] == name[j - |parent|];
  }

  /** The split is the one pair of a folder ending in a slash and a name without slashes that joins
      to the path with a leading slash added if missing and one trailing slash dropped. */
  lemma SplitExact(path: string, parts: Parts)
    ensures parts == Split(path)
       <==> EndsWithSlash(parts.parent) && NoSlash(parts.name) && parts.parent + parts.name == Normal(path)
  {
    NormalHasSlash(path);
    var normal, k := Normal(path), LastSlash(Normal(path));
    hide Normal, LastSlash;
    assert normal[..k + 1] + normal[k + 1..] == normal;
    if EndsWithSlash(parts.parent) && NoSlash(parts.name) && parts.parent + parts.name == normal {
      CutIsUnique(parts.parent, parts.name);
    }
  }

  /** Every path in normal form: a slash in front is added when there is none, and one at the end is dropped. */
  lemma NormalForms(s: string)
    ensures Normal("") == "/" && Normal("/") == "/"
    ensures Normal("/" + s + "/") == "/" + s
    ensures s != "" && !EndsWithSlash(s) ==> Normal("/" + s) == "/" + s
    ensures s != "" && !StartsWithSlash(s) ==> Normal(s) == Normal("/" + s)
  {
    assert ("/" + s + "/")[..|s| + 1] == "/" + s;
  }

  lemma SplitOfRoot(path: string)
    requires path == "" || path == "/"
    ensures Split(path) == Parts("/", "")
  {
    SplitExact(path, Parts("/", ""));
    hide LastSlash, Split;
  }

  /** A folder path as a directory walk builds it: empty, or closed by a slash. */
  predicate FolderPath(p: string) { p == "" || EndsWithSlash(p) }

  /** The parent path of the entries in folder p. */
  function InsideOf(p: string): string { if p == "" then "" else p + "/" }

  /** What the path of a stored directory is split into. */
  lemma SplitOfStored(p: string, n: string)
    requires FolderPath(p) && NoSlash(n) && (n == "" ==> p == "")
    ensures Split(InsideOf(p + n)) == Parts(if StartsWithSlash(p) then p else "/" + p, n)
  {
    SplitExact(InsideOf(p + n), Parts(if StartsWithSlash(p) then p else "/" + p, n));
    NormalInside(p, n);
    hide Split, Normal, InsideOf;
  }

  /** Looking up the path of a stored directory finds the columns it was stored with, "/" + p and n,
      exactly when p has no slash in front. */
  lemma SplitInvertsStorage(p: string, n: string)
    requires FolderPath(p) && NoSlash(n) && (n == "" ==> p == "")
    ensures Split(InsideOf(p + n)) == Parts("/" + p, n) <==> !StartsWithSlash(p)
  {
    SplitOfStored(p, n);
    hide Split, InsideOf;
    assert |"/" + p| == |p| + 1;
  }

  lemma NormalInside(p: string, n: string)
    requires FolderPath(p) && NoSlash(n) && (n == "" ==> p == "")
    ensures Normal(InsideOf(p + n)) == if StartsWithSlash(p) then p + n else ("/" + p) + n
  {
    var path := InsideOf(p + n);
    if n != "" {
      assert path[|path| - 1] == '/' && path[..|path| - 1] == p + n;
      if !StartsWithSlash(p) {
        assert path[0] == if p == "" then n[0] else p[0];
        assert ("/" + path)[..|path|] == ("/" + p) + n;
      }
    }
  }

  lemma SplitIs(path: string)
    ensures var k := LastSlash(Normal(path));
            Split(path) == Parts(Normal(path)[..k + 1], Normal(path)[k + 1..])
  {
  }

  /** The member buffers of TskDb, each held as the characters before its terminating null. */
  class PathBuffers {
    var parentName: string
    var parentPath: string

    /** The buffers have MAX_PATH_LENGTH and MAX_PATH_LENGTH + 2 bytes, with the terminating null. */
    ghost predicate Fit()
      reads this
    {
      |parentName| < MAX_PATH_LENGTH && |parentPath| < MAX_PATH_LENGTH + 2
    }

    constructor ()
      ensures Fit()
    {
      parentName, parentPath := "", "";
    }

    method GetParentPathAndName(path: string) returns (failed: bool, retParent: string, retName: string)
      requires Fit()
      modifies this
      ensures Fit()
      ensures failed <==> |path| >= 2048
      ensures Parts(retParent, retName) == if failed then Parts("", "") else Split(path)
    {
      hide Split, Normal, LastSlash;
      parentName := "";
      parentPath := "";
      if |path| >= MAX_PATH_LENGTH {
        return true, "", "";
      }
      if |path| == 0 || path == "/" {
        SplitOfRoot(path);
        return false, "/", "";
      }
      CleanUp(path);
      retParent, retName := MoveName(path);
      failed := false;
    }

    /** Step 1: the path is copied and its slashes at both ends are brought into form. */
    method CleanUp(path: string)
      requires 0 < |path| < MAX_PATH_LENGTH && path != "/" && parentPath == "" && Fit()
      modifies this`parentPath
      ensures Fit() && parentPath == Normal(path)
    {
      if path[0] != '/' {
        parentPath := "/";
      }
      parentPath := parentPath + path;
      if parentPath[|parentPath| - 1] == '/' {
        parentPath := parentPath[..|parentPath| - 1];
      }
    }

    /** Step 2: the final name is moved to its own buffer. */
    method MoveName(path: string) returns (retParent: string, retName: string)
      requires parentPath == Normal(path) && |path| < MAX_PATH_LENGTH
      modifies this
      ensures Fit() && Parts(retParent, retName) == Split(path)
    {
      NormalHasSlash(path);
      SplitIs(path);
      hide Split, Normal, LastSlash;
      var position := LastSlash(parentPath);
      if position >= 0 {
        parentName := parentPath[position + 1..];
        retName := parentName;
        parentPath := parentPath[..position + 1];
        retParent := parentPath;
      } else {
        retName := parentPath;
        retParent := "/";
      }
    }
  }
}

/** The path hash of tsk/auto/db_sqlite.cpp. */
module PathHash {
  import opened PathSplit
  import opened Unsigned

  /** A byte of a C string. */
  function Code(c: char): Byte { c as int % 256 }

  /** hash * 33 + c on 32 bits; slashes are skipped. */
  function HashStep(h: U32, c: char): U32 {
    if c == '/' then h else Wrap(Wrap(Wrap(h * 32) + h) + Code(c))
  }

  function HashFrom(h: U32, s: string): U32
    decreases |s|
  {
    if s == [] then h else HashStep(HashFrom(h, s[..|s| - 1]), s[|s| - 1])
  }

  const SEED: U32 := 5381

  function PathKey(s: string): U32 { HashFrom(SEED, s) }

  lemma KeyIs(s: string)
    ensures PathKey(s) == HashFrom(SEED, s)
  {
  }

  lemma LetterStep(h: U32, c: char)
    ensures HashStep(h, c) == if c == '/' then h else Wrap(Wrap(Wrap(h * 32) + h) + Code(c))
  {
  }

  lemma HashNone(h: U32)
    ensures HashFrom(h, []) == h
  {
  }

  lemma HashNext(h: U32, s: string, c: char)
    ensures HashFrom(h, s + [c]) == HashStep(HashFrom(h, s), c)
  {
    assert (s + [c])[..|s|] == s;
    hide HashStep;
  }

  method Hash(str: string) returns (hash: U32)
    ensures hash == PathKey(str)
  {
    hide *;
    HashNone(SEED);
    KeyIs(str);
    hash := SEED;
    for i := 0 to |str|
      invariant hash == HashFrom(SEED, str[..i])
    {
      var c := str[i];
      HashNext(SEED, str[..i], c);
      LetterStep(hash, c);
      assert str[..i + 1] == str[..i] + [c];
      if c == '/' {
        continue;
      }
      hash := Wrap(Wrap(Wrap(hash * 32) + hash) + Code(c));
    }
    assert str[..|str|] == str;
  }

  /** A path without its slashes. */
  function Letters(s: string): string
    decreases |s|
  {
    if s == [] then []
    else Letters(s[..|s| - 1]) + if s[|s| - 1] == '/' then [] else [s[|s| - 1]]
  }

  /** Paths that differ only in slashes share a key. */
  lemma {:induction false} KeyIgnoresSlashes(s: string)
    ensures PathKey(s) == PathKey(Letters(s))
    decreases |s|
  {
    if s != [] {
      KeyIgnoresSlashes(s[..|s| - 1]);
      if s[|s| - 1] == '/' {
        assert Letters(s) == Letters(s[..|s| - 1]);
      } else {
        HashNext(SEED, Letters(s[..|s| - 1]), s[|s| - 1]);
      }
    }
  }

  lemma {:induction false} LettersJoin(a: string, b: string)
    ensures Letters(a + b) == Letters(a) + Letters(b)
    decreases |b|
  {
    if b == [] {
      assert a + b == a;
    } else {
      var front := b[..|b| - 1];
      LettersJoin(a, front);
      assert (a + b)[..|a + b| - 1] == a + front && (a + b)[|a + b| - 1] == b[|b| - 1];
    }
  }

  lemma {:induction false} LettersAll(s: string)
    ensures NoSlash(s) ==> Letters(s) == s
    decreases |s|
  {
    if s != [] {
      LettersAll(s[..|s| - 1]);
    }
  }

  lemma LettersOfSlash()
    ensures Letters("/") == [] && Letters("") == []
  {
    assert "/"[..0] == "";
  }

  lemma LettersDrop(s: string)
    requires EndsWithSlash(s)
    ensures Letters(s[..|s| - 1]) == Letters(s)
  {
  }

  /** Bringing a path into form changes slashes only. */
  lemma LettersOfNormal(path: string)
    ensures Letters(Normal(path)) == Letters(path)
  {
    LettersOfSlash();
    LettersJoin("/", path);
    if path != "" && path != "/" {
      var full := if path[0] != '/' then "/" + path else path;
      if EndsWithSlash(full) {
        LettersDrop(full);
      }
    }
    hide Letters;
  }

  lemma LettersInside(p: string)
    ensures Letters(InsideOf(p)) == Letters(p)
  {
    LettersJoin(p, "/");
    LettersOfSlash();
    hide Letters;
  }

  /** A folder and the entries in it share a key. */
  lemma InsideSharesKey(p: string)
    ensures PathKey(InsideOf(p)) == PathKey(p)
  {
    if p != "" {
      HashNext(SEED, p, '/');
    }
  }

  // ----- the hash as a number

  /** The sum of the bytes, each weighted by 33 to the number of bytes behind it. */
  function Weighted(s: string): nat {
    if s == [] then 0 else (s[0] as int % 256) * Power(33, |s| - 1) + Weighted(s[1..])
  }

  function Power(n: nat, k: nat): nat { if k == 0 then 1 else n * Power(n, k - 1) }

  lemma {:induction false} WeightedNext(s: string, c: char)
    ensures Weighted(s + [c]) == 33 * Weighted(s) + c as int % 256
    decreases |s|
  {
    if s == [] {
      assert s + [c] == [c] && [c][1..] == [] && Power(33, 0) == 1;
    } else {
      WeightedNext(s[1..], c);
      assert (s + [c])[0] == s[0] && (s + [c])[1..] == s[1..] + [c];
      TimesPower(s[0] as int % 256, |s| - 1);
    }
  }

  lemma TimesPower(a: nat, k: nat)
    ensures a * Power(33, k + 1) == 33 * (a * Power(33, k))
  {
    var p := Power(33, k);
    assert Power(33, k + 1) == 33 * p;
    hide Power;
  }

  lemma WrapOnce(a: nat, b: nat)
    ensures Wrap(Wrap(a) + b) == Wrap(a + b)
  {
    SameRemainder(a % LIMIT32 + b, a / LIMIT32, a + b);
  }

  /** One step adds a digit to the base 33, modulo 2^32. */
  lemma StepIsDigit(h: U32, x: nat, c: char)
    requires h == x % 0x1_0000_0000 && c != '/'
    ensures HashStep(h, c) == (33 * x + c as int % 256) % 0x1_0000_0000
  {
    var digit := c as int % 256;
    assert Code(c) == digit;
    WrapOnce(h * 32, h);
    WrapOnce(h * 33, digit);
    WrapIs(h * 33 + digit);
    LetterStep(h, c);
    SameRemainder(h * 33 + digit, 33 * (x / LIMIT32), 33 * x + digit);
    hide Code, Wrap, HashStep;
  }

  lemma WrapIs(n: nat)
    ensures Wrap(n) == n % 0x1_0000_0000
  {
  }

  lemma SameRemainder(x: nat, q: nat, y: nat)
    requires y == x + q * LIMIT32
    ensures y % LIMIT32 == x % LIMIT32
  {
  }

  /** The letters as digits to the base 33, behind a leading 5381. */
  function Number(letters: string): nat { 5381 * Power(33, |letters|) + Weighted(letters) }

  lemma NumberNext(letters: string, c: char)
    ensures Number(letters + [c]) == 33 * Number(letters) + c as int % 256
  {
    WeightedNext(letters, c);
    TimesPower(5381, |letters|);
    hide Power, Weighted;
  }

  lemma LettersNext(s: string, c: char)
    ensures Letters(s + [c]) == if c == '/' then Letters(s) else Letters(s) + [c]
  {
    assert (s + [c])[..|s|] == s;
  }

  /** The hash is this number modulo 2^32. */
  lemma {:induction false} KeyIsNumber(s: string)
    ensures PathKey(s) == Number(Letters(s)) % 0x1_0000_0000
    decreases |s|
  {
    if s == [] {
      assert Number([]) == 5381;
    } else {
      var front, c := s[..|s| - 1], s[|s| - 1];
      KeyIsNumber(front);
      assert s == front + [c];
      hide *;
      KeyIs(front);
      KeyIs(s);
      HashNext(SEED, front, c);
      LettersNext(front, c);
      LetterStep(PathKey(front), c);
      NumberNext(Letters(front), c);
      if c != '/' {
        StepIsDigit(PathKey(front), Number(Letters(front)), c);
      }
    }
  }
}
