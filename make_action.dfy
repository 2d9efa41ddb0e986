/**
 * The class name `make:action` generates: the argument trimmed, a '.php' and an
 * 'Action' suffix removed, and 'Action' appended.
 */
module ActionNames {
  import opened PhpStrings

  /** The characters `mb_trim` removes by default. */
  predicate IsTrimmable(c: char)
  {
    var n := c as int;
    n == 0x20 || n == 0x0C || n == 0x0A || n == 0x0D || n == 0x09 || n == 0x0B || n == 0x00
    || n == 0xA0 || n == 0x1680 || 0x2000 <= n <= 0x200A || n == 0x2028 || n == 0x2029
    || n == 0x202F || n == 0x205F || n == 0x3000 || n == 0x85 || n == 0x180E
  }

  /** Leading trimmable characters removed. */
  function TrimStart(s: string): (t: string)
    ensures |t| <= |s| && t == s[|s| - |t|..]
    ensures t == [] || !IsTrimmable(t[0])
  {
    if s != [] && IsTrimmable(s[0]) then TrimStart(s[1..]) else s
  }

  /** Trailing trimmable characters removed. */
  function TrimEnd(s: string): (t: string)
    ensures |t| <= |s| && t == s[..|t|]
    ensures t == [] || !IsTrimmable(t[|t| - 1])
  {
    if s != [] && IsTrimmable(s[|s| - 1]) then TrimEnd(s[..|s| - 1]) else s
  }

  /** `mb_trim` with its default character set. */
  function MbTrim(s: string): (t: string)
    ensures t == [] || (!IsTrimmable(t[0]) && !IsTrimmable(t[|t| - 1]))
  {
    var u := TrimStart(s);
    var t := TrimEnd(u);
    assert t != [] ==> t[0] == u[0];
    t
  }

  /** A string with nothing to trim at either end is left as it is. */
  lemma MbTrimOfTrimmed(s: string)
    requires s == [] || (!IsTrimmable(s[0]) && !IsTrimmable(s[|s| - 1]))
    ensures MbTrim(s) == s
  {
  }

  /** `Str::replaceEnd`: a trailing `search` replaced by `replace`; an empty `search` changes nothing. */
  function ReplaceEnd(s: string, search: string, replace: string): (r: string)
    ensures search != [] && EndsWith(s, search) ==> r == s[..|s| - |search|] + replace
    ensures search == [] || !EndsWith(s, search) ==> r == s
    ensures replace == [] ==> |r| <= |s| && r == s[..|r|]
  {
    if search == [] then s
    else if EndsWith(s, search) then s[..|s| - |search|] + replace
    else s
  }

  /** The base name before the suffix: trimmed, without '.php', then without 'Action'. */
  function BaseName(name: string): (b: string)
    ensures |b| <= |MbTrim(name)| && b == MbTrim(name)[..|b|]
  {
    var t := MbTrim(name);
    var a := ReplaceEnd(t, ".php", "");
    ReplaceEnd(a, "Action", "")
  }

  /** `getNameInput`: the base name with 'Action' appended. */
  function NameInput(name: string): (r: string)
    ensures EndsWith(r, "Action")
  {
    var r := BaseName(name) + "Action";
    assert r[|r| - 6..] == "Action";
    r
  }

  /** Appending 'Action' gives a name that ends with it and not with '.php'. */
  lemma WithSuffix(b: string)
    ensures var r := b + "Action";
      EndsWith(r, "Action") && r[..|r| - 6] == b && !EndsWith(r, ".php") && r[|r| - 1] == 'n'
  {
    var r := b + "Action";
    assert r[|r| - 6..] == "Action";
    assert r[|r| - 4..][3] == 'n';
  }

  /** A name whose ends need no trimming and that has neither suffix gets 'Action' appended. */
  lemma NameInputOfBase(b: string)
    requires b != [] && !IsTrimmable(b[0]) && !IsTrimmable(b[|b| - 1])
    requires !EndsWith(b, ".php") && !EndsWith(b, "Action")
    ensures NameInput(b) == b + "Action"
  {
    MbTrimOfTrimmed(b);
  }

  /** A '.php' extension is dropped. */
  lemma NameInputOfFile(b: string)
    requires b != [] && !IsTrimmable(b[0]) && !IsTrimmable(b[|b| - 1])
    requires !EndsWith(b, "Action")
    ensures NameInput(b + ".php") == b + "Action"
  {
    var p := b + ".php";
    assert p[0] == b[0] && p[|p| - 1] == 'p';
    MbTrimOfTrimmed(p);
    assert p[|p| - 4..] == ".php" && p[..|p| - 4] == b;
  }

  /** An 'Action' suffix already given is not doubled. */
  lemma NameInputOfAction(b: string)
    requires b == [] || !IsTrimmable(b[0])
    ensures NameInput(b + "Action") == b + "Action"
  {
    var r := b + "Action";
    WithSuffix(b);
    assert r[0] == if b != [] then b[0] else 'A';
    MbTrimOfTrimmed(r);
  }

  /** Normalising a normalised name changes nothing. */
  lemma NameInputIdempotent(name: string)
    ensures NameInput(NameInput(name)) == NameInput(name)
  {
    var b := BaseName(name);
    var t := MbTrim(name);
    assert b != [] ==> b[0] == t[0];
    NameInputOfAction(b);
  }

  /** Leading trimmable characters in front of a word are all removed. */
  lemma {:induction false} TrimStartSkips(w: string, b: string)
    requires forall i :: 0 <= i < |w| ==> IsTrimmable(w[i])
    requires b != [] && !IsTrimmable(b[0])
    ensures TrimStart(w + b) == b
  {
    if w != [] {
      assert (w + b)[0] == w[0] && (w + b)[1..] == w[1..] + b;
      TrimStartSkips(w[1..], b);
    } else {
      assert w + b == b;
    }
  }

  /** Trailing trimmable characters after a word are all removed. */
  lemma {:induction false} TrimEndSkips(b: string, w: string)
    requires forall i :: 0 <= i < |w| ==> IsTrimmable(w[i])
    requires b != [] && !IsTrimmable(b[|b| - 1])
    ensures TrimEnd(b + w) == b
  {
    if w != [] {
      var s := b + w;
      assert s[|s| - 1] == w[|w| - 1] && s[..|s| - 1] == b + w[..|w| - 1];
      TrimEndSkips(b, w[..|w| - 1]);
    } else {
      assert b + w == b;
    }
  }

  /** Whitespace around the name does not change the class name. */
  lemma NameInputIgnoresSurroundingSpace(front: string, b: string, back: string)
    requires forall i :: 0 <= i < |front| ==> IsTrimmable(front[i])
    requires forall i :: 0 <= i < |back| ==> IsTrimmable(back[i])
    requires b != [] && !IsTrimmable(b[0]) && !IsTrimmable(b[|b| - 1])
    ensures NameInput(front + b + back) == NameInput(b)
  {
    var bw := b + back;
    assert front + b + back == front + bw;
    assert bw[0] == b[0];
    TrimStartSkips(front, bw);
    TrimEndSkips(b, back);
    MbTrimOfTrimmed(b);
  }

  /** `make:action CreateTest` and `make:action CreateTest.php` both create `CreateTestAction`. */
  lemma NameInputOfCreateTest(c: string)
    requires c == "CreateTest"
    ensures NameInput(c) == c + "Action" && NameInput(c + ".php") == c + "Action"
  {
    assert c[6..][0] == 'T' && c[4..][0] == 't';
    NameInputOfBase(c);
    NameInputOfFile(c);
  }

  /** `make:action FooAction` keeps a single suffix. */
  lemma NameInputKeepsSuffix()
    ensures NameInput("FooAction") == "FooAction"
  {
    assert "Foo" + "Action" == "FooAction";
    NameInputOfAction("Foo");
  }
}
