/** Normalisation of the fields of one agent role. */
module RoleConfig {
  import opened Wrappers
  import opened Orders
  import opened Discovery

  /** The configuration field an error message names. */
  datatype Field = OfDeclared(role: string) | OfFile(path: Path)

  datatype RoleError =
    | BlankDescription(field: Field)
    | EmptyNicknames(field: Field)
    | BlankNickname(field: Field)
    | DuplicateNickname(field: Field)
    | BadNicknameChars(field: Field)
    | BadToml(path: Path, message: string)
    | BlankInstructions(path: Path)
    | MissingInstructions(path: Path)
    | MissingName(path: Path)
    | ReadFailed(io: IoError)
    | ConfigFileAbsent(role: string, path: Path, io: IoError)
    | ConfigFileNotFile(role: string, path: Path)
    | MissingDescription(role: string)
    | BadAgentsTable(message: string)
    | DuplicateInLayer(role: string)
    | DuplicateDiscovered(role: string, dir: Path)
    | DuplicateInConfig(role: string)

  // ----- Trimming -----

  /** The Unicode White_Space property. */
  predicate IsSpace(c: char) {
    var n := c as int;
    || 0x09 <= n <= 0x0D || n == 0x20 || n == 0x85 || n == 0xA0 || n == 0x1680
    || 0x2000 <= n <= 0x200A || n == 0x2028 || n == 0x2029 || n == 0x202F || n == 0x205F || n == 0x3000
  }

  /** The characters that trimming removes, one by one. */
  lemma SpaceChars(c: char)
    ensures IsSpace(c) <==> c in {
              '\t', '\n', '\U{0B}', '\U{0C}', '\r', ' ', '\U{85}', '\U{A0}', '\U{1680}',
              '\U{2000}', '\U{2001}', '\U{2002}', '\U{2003}', '\U{2004}', '\U{2005}', '\U{2006}', '\U{2007}',
              '\U{2008}', '\U{2009}', '\U{200A}', '\U{2028}', '\U{2029}', '\U{202F}', '\U{205F}', '\U{3000}'}
  {
  }

  predicate AllSpace(s: string) {
    forall c :: c in s ==> IsSpace(c)
  }

  predicate Trimmed(s: string) {
    s == [] || (!IsSpace(s[0]) && !IsSpace(s[|s|-1]))
  }

  function TrimStart(s: string): string {
    if s != [] && IsSpace(s[0]) then TrimStart(s[1..]) else s
  }

  function TrimEnd(s: string): string {
    if s != [] && IsSpace(s[|s|-1]) then TrimEnd(s[..|s|-1]) else s
  }

  function Trim(s: string): string {
    TrimEnd(TrimStart(s))
  }

  lemma {:induction false} TrimStartOf(pre: string, m: string)
    requires AllSpace(pre) && (m != [] ==> !IsSpace(m[0]))
    ensures TrimStart(pre + m) == m
  {
    if pre == [] {
      assert pre + m == m;
    } else {
      assert IsSpace(pre[0]);
      assert (pre + m)[1..] == pre[1..] + m;
      TrimStartOf(pre[1..], m);
    }
  }

  lemma {:induction false} TrimEndOf(m: string, post: string)
    requires AllSpace(post) && (m != [] ==> !IsSpace(m[|m|-1]))
    ensures TrimEnd(m + post) == m
  {
    if post == [] {
      assert m + post == m;
    } else {
      var n := |post| - 1;
      assert IsSpace(post[n]);
      assert (m + post)[..|m + post| - 1] == m + post[..n];
      TrimEndOf(m, post[..n]);
    }
  }

  /** Trimming is the only way to write a text as space, trimmed middle, space. */
  lemma {:induction false} TrimIs(pre: string, m: string, post: string)
    requires AllSpace(pre) && AllSpace(post) && Trimmed(m)
    ensures Trim(pre + m + post) == m
  {
    if m == [] {
      assert pre + m + post == (pre + post) + [];
      TrimStartOf(pre + post, []);
    } else {
      assert pre + m + post == pre + (m + post);
      TrimStartOf(pre, m + post);
      TrimEndOf(m, post);
    }
  }

  lemma {:induction false} TrimStartSplit(s: string) returns (pre: string)
    ensures AllSpace(pre) && s == pre + TrimStart(s)
    ensures TrimStart(s) != [] ==> !IsSpace(TrimStart(s)[0])
  {
    pre := [];
    if s != [] && IsSpace(s[0]) {
      var p := TrimStartSplit(s[1..]);
      pre := [s[0]] + p;
    }
  }

  lemma {:induction false} TrimEndSplit(s: string) returns (post: string)
    ensures AllSpace(post) && s == TrimEnd(s) + post
    ensures TrimEnd(s) != [] ==> !IsSpace(TrimEnd(s)[|TrimEnd(s)|-1])
  {
    post := [];
    if s != [] && IsSpace(s[|s|-1]) {
      var p := TrimEndSplit(s[..|s|-1]);
      post := p + [s[|s|-1]];
    }
  }

  /** Trimming removes only leading and trailing space, and removes all of it. */
  lemma {:induction false} TrimSplits(s: string)
    ensures Trimmed(Trim(s))
    ensures exists pre, post :: AllSpace(pre) && AllSpace(post) && s == pre + Trim(s) + post
  {
    var pre := TrimStartSplit(s);
    var post := TrimEndSplit(TrimStart(s));
    var t := Trim(s);
    assert TrimStart(s) == t + post;
    assert t != [] ==> t[0] == TrimStart(s)[0];
    assert s == pre + t + post;
  }

  lemma TrimFixpoint(s: string)
    requires Trimmed(s)
    ensures Trim(s) == s
  {
    TrimIs([], s, []);
    assert [] + s + [] == s;
  }

  // ----- Descriptions -----

  function NormalizeDescription(field: Field, d: Option<string>): Result<Option<string>, RoleError> {
    match d
    case None => Success(None)
    case Some(text) => if Trim(text) == "" then Failure(BlankDescription(field)) else Success(Some(Trim(text)))
  }

  predicate ValidDescription(d: Option<string>) {
    d.Some? ==> d.value != "" && Trimmed(d.value)
  }

  // ----- Nicknames -----

  predicate AllowedChar(c: char) {
    'a' <= c <= 'z' || 'A' <= c <= 'Z' || '0' <= c <= '9' || c == ' ' || c == '-' || c == '_'
  }

  /** The allowed characters by their ASCII codes: digits, letters, space, hyphen and underscore. */
  lemma AllowedCodes(c: char)
    ensures var n := c as int;
            AllowedChar(c) <==> 48 <= n <= 57 || 65 <= n <= 90 || 97 <= n <= 122 || n in {32, 45, 95}
  {
  }

  /** What is wrong with the `i`-th name, given the names before it. */
  function NicknameFault(field: Field, names: seq<string>, i: nat): Option<RoleError>
    requires i < |names|
  {
    var t := Trim(names[i]);
    if t == "" then Some(BlankNickname(field))
    else if exists j :: 0 <= j < i && Trim(names[j]) == t then Some(DuplicateNickname(field))
    else if exists c :: c in t && !AllowedChar(c) then Some(BadNicknameChars(field))
    else None
  }

  function FirstFault(field: Field, names: seq<string>, i: nat): Option<RoleError>
    requires i <= |names|
    decreases |names| - i
  {
    if i == |names| then None else NicknameFault(field, names, i).Or(FirstFault(field, names, i + 1))
  }

  function TrimAll(names: seq<string>): (r: seq<string>)
    ensures |r| == |names| && forall i :: 0 <= i < |names| ==> r[i] == Trim(names[i])
  {
    seq(|names|, i requires 0 <= i < |names| => Trim(names[i]))
  }

  function NormalizedNicknames(field: Field, names: Option<seq<string>>): Result<Option<seq<string>>, RoleError> {
    if names.None? then Success(None)
    else if names.value == [] then Failure(EmptyNicknames(field))
    else match FirstFault(field, names.value, 0)
      case Some(error) => Failure(error)
      case None => Success(Some(TrimAll(names.value)))
  }

  /** A non-empty list of trimmed, distinct names over the allowed characters. */
  ghost predicate ValidNicknames(n: Option<seq<string>>) {
    n.Some? ==>
      && n.value != []
      && Distinct(n.value)
      && forall t :: t in n.value ==> t != "" && Trimmed(t) && forall c :: c in t ==> AllowedChar(c)
  }

  ghost predicate NoFaults(field: Field, names: seq<string>, i: nat, k: nat)
    requires k <= |names|
  {
    forall j :: i <= j < k ==> NicknameFault(field, names, j).None?
  }

  /** The error is that of the `k`-th name, the first faulty one from `i` on. */
  ghost predicate FaultFirstAt(field: Field, names: seq<string>, i: nat, k: nat, error: Option<RoleError>) {
    i <= k < |names| && NicknameFault(field, names, k) == error && NoFaults(field, names, i, k)
  }

  lemma NoFaultsCons(field: Field, names: seq<string>, i: nat, k: nat)
    requires i < k <= |names|
    ensures NoFaults(field, names, i, k) <==> NicknameFault(field, names, i).None? && NoFaults(field, names, i + 1, k)
  {
  }

  lemma {:induction false} FirstFaultIs(field: Field, names: seq<string>, i: nat)
    requires i <= |names|
    ensures FirstFault(field, names, i).None? <==> NoFaults(field, names, i, |names|)
    ensures FirstFault(field, names, i).Some? ==>
            exists k: nat :: FaultFirstAt(field, names, i, k, FirstFault(field, names, i))
    decreases |names| - i
  {
    if i < |names| {
      FirstFaultIs(field, names, i + 1);
      NoFaultsCons(field, names, i, |names|);
      var first := FirstFault(field, names, i);
      if NicknameFault(field, names, i).Some? {
        assert FaultFirstAt(field, names, i, i, first);
      } else if first.Some? {
        var k: nat :| FaultFirstAt(field, names, i + 1, k, first);
        NoFaultsCons(field, names, i, k);
        assert FaultFirstAt(field, names, i, k, first);
      }
    }
  }

  ghost predicate AllowedName(t: string) {
    t != "" && forall c :: c in t ==> AllowedChar(c)
  }

  lemma NoFaultAt(field: Field, names: seq<string>, k: nat)
    requires k < |names|
    ensures var t := TrimAll(names);
            NicknameFault(field, names, k).None? <==> AllowedName(t[k]) && forall j :: 0 <= j < k ==> t[j] != t[k]
  {
  }

  lemma ValidWhenAllowed(names: seq<string>)
    ensures var t := TrimAll(names);
            ValidNicknames(Some(t)) <==> t != [] && Distinct(t) && forall k :: 0 <= k < |t| ==> AllowedName(t[k])
  {
    var t := TrimAll(names);
    forall k | 0 <= k < |t| ensures Trimmed(t[k]) && t[k] in t { TrimSplits(names[k]); }
  }

  /**
   A present list is accepted if and only if it is valid after trimming every name, and the
   result is then the trimmed list.
   */
  lemma {:induction false} NicknamesAccepted(field: Field, names: seq<string>)
    ensures NormalizedNicknames(field, Some(names)).Success? <==> ValidNicknames(Some(TrimAll(names)))
    ensures NormalizedNicknames(field, Some(names)).Success? ==>
            NormalizedNicknames(field, Some(names)).value == Some(TrimAll(names))
  {
    var t := TrimAll(names);
    FirstFaultIs(field, names, 0);
    ValidWhenAllowed(names);
    forall k | 0 <= k < |names|
      ensures NicknameFault(field, names, k).None? <==> AllowedName(t[k]) && forall j :: 0 <= j < k ==> t[j] != t[k]
    {
      NoFaultAt(field, names, k);
    }
  }

  /** A list that has been normalised normalises to itself. */
  lemma {:induction false} NicknamesIdempotent(field: Field, again: Field, names: Option<seq<string>>)
    requires NormalizedNicknames(field, names).Success?
    ensures NormalizedNicknames(again, NormalizedNicknames(field, names).value) == NormalizedNicknames(field, names)
    ensures ValidNicknames(NormalizedNicknames(field, names).value)
  {
    if names.Some? {
      var t := TrimAll(names.value);
      NicknamesAccepted(field, names.value);
      forall k | 0 <= k < |t| ensures Trim(t[k]) == t[k] {
        assert t[k] in t;
        TrimFixpoint(t[k]);
      }
      assert TrimAll(t) == t;
      NicknamesAccepted(again, t);
    }
  }

  /** The first `k` trimmed names are allowed and distinct. */
  ghost predicate FineUpTo(t: seq<string>, k: nat)
    requires k <= |t|
  {
    Distinct(t[..k]) && forall j :: 0 <= j < k ==> AllowedName(t[j])
  }

  lemma FineMeans(field: Field, names: seq<string>, k: nat)
    requires k <= |names|
    ensures FineUpTo(TrimAll(names), k) <==> NoFaults(field, names, 0, k)
  {
    var t := TrimAll(names);
    forall j | 0 <= j < k
      ensures NicknameFault(field, names, j).None? <==> AllowedName(t[j]) && NewAt(t, j)
    {
      NoFaultAt(field, names, j);
    }
    DistinctUpTo(t, k);
  }

  ghost predicate NewAt(t: seq<string>, j: nat)
    requires j < |t|
  {
    forall i :: 0 <= i < j ==> t[i] != t[j]
  }

  lemma DistinctUpTo(t: seq<string>, k: nat)
    requires k <= |t|
    ensures Distinct(t[..k]) <==> forall j :: 0 <= j < k ==> NewAt(t, j)
  {
    if forall j :: 0 <= j < k ==> NewAt(t, j) {
      forall i, j | 0 <= i < j < k ensures t[..k][i] != t[..k][j] { assert NewAt(t, j); }
    }
    if Distinct(t[..k]) {
      forall j | 0 <= j < k ensures NewAt(t, j) {
        assert forall i :: 0 <= i < j ==> t[..k][i] == t[i] && t[..k][j] == t[j];
      }
    }
  }

  /** The name that spoils the list decides the error: blank, seen before, or badly spelled. */
  lemma {:induction false} NicknameErrorIs(field: Field, names: seq<string>, k: nat)
    requires k < |names| && FineUpTo(TrimAll(names), k) && !FineUpTo(TrimAll(names), k + 1)
    ensures var t := TrimAll(names);
            NormalizedNicknames(field, Some(names)) == Failure(
              if t[k] == "" then BlankNickname(field)
              else if t[k] in t[..k] then DuplicateNickname(field)
              else BadNicknameChars(field))
  {
    FineMeans(field, names, k);
    FineMeans(field, names, k + 1);
    FaultDecides(field, names, 0, k);
    FaultKind(field, names, k);
  }

  lemma FaultKind(field: Field, names: seq<string>, k: nat)
    requires k < |names| && NicknameFault(field, names, k).Some?
    ensures var t := TrimAll(names);
            NicknameFault(field, names, k) == Some(
              if t[k] == "" then BlankNickname(field)
              else if t[k] in t[..k] then DuplicateNickname(field)
              else BadNicknameChars(field))
  {
    var t := TrimAll(names);
    if j :| 0 <= j < k && Trim(names[j]) == t[k] { assert t[..k][j] == t[k]; }
  }

  lemma {:induction false} FaultDecides(field: Field, names: seq<string>, i: nat, k: nat)
    requires i <= k < |names| && NoFaults(field, names, i, k) && NicknameFault(field, names, k).Some?
    ensures FirstFault(field, names, i) == NicknameFault(field, names, k)
    decreases k - i
  {
    if i < k {
      FaultDecides(field, names, i + 1, k);
    }
  }

  /** The validation loop, with its set of names already seen. */
  method NormalizeNicknames(field: Field, names: Option<seq<string>>) returns (r: Result<Option<seq<string>>, RoleError>)
    ensures r == NormalizedNicknames(field, names)
  {
    if names.None? {
      return Success(None);
    }
    if names.value == [] {
      return Failure(EmptyNicknames(field));
    }
    var list := names.value;
    var normalized: seq<string> := [];
    var seen: set<string> := {};
    for i := 0 to |list|
      invariant normalized == TrimAll(list)[..i]
      invariant forall t :: t in seen <==> exists j :: 0 <= j < i && Trim(list[j]) == t
      invariant FirstFault(field, list, 0) == FirstFault(field, list, i)
    {
      var t := Trim(list[i]);
      if t == "" {
        return Failure(BlankNickname(field));
      }
      if t in seen {
        return Failure(DuplicateNickname(field));
      }
      seen := seen + {t};
      if exists c :: c in t && !AllowedChar(c) {
        return Failure(BadNicknameChars(field));
      }
      normalized := normalized + [t];
    }
    assert TrimAll(list)[..|list|] == TrimAll(list);
    return Success(Some(normalized));
  }

  // ----- Role files -----

  /** The keys of a role file that decide the role, as deserialised. */
  datatype RawRoleFile = RawRoleFile(
    name: Option<string>, description: Option<string>,
    nicknames: Option<seq<string>>, instructions: Option<string>)

  datatype ResolvedRoleFile = ResolvedRoleFile(
    roleName: string, description: Option<string>, nicknames: Option<seq<string>>)

  function CheckInstructions(path: Path, instructions: Option<string>, required: bool): Result<(), RoleError> {
    match instructions
    case Some(text) => if Trim(text) == "" then Failure(BlankInstructions(path)) else Success(())
    case None => if required then Failure(MissingInstructions(path)) else Success(())
  }

  /** A non-blank name in the file wins over the hint; without either the file is refused. */
  function RoleName(path: Path, name: Option<string>, hint: Option<string>): Result<string, RoleError> {
    if name.Some? && Trim(name.value) != "" then Success(Trim(name.value))
    else if hint.Some? then Success(hint.value)
    else Failure(MissingName(path))
  }

  function ParseRoleFile(path: Path, toml: Result<RawRoleFile, string>, hint: Option<string>): (r: Result<ResolvedRoleFile, RoleError>)
    ensures r.Success? ==> ValidDescription(r.value.description) && ValidNicknames(r.value.nicknames)
    ensures r.Success? && hint.None? ==> r.value.roleName != "" && Trimmed(r.value.roleName)
  {
    if toml.Failure? then Failure(BadToml(path, toml.error))
    else
      var raw := toml.value;
      var description :- NormalizeDescription(OfFile(path), raw.description);
      var _ :- CheckInstructions(path, raw.instructions, hint.None?);
      var roleName :- RoleName(path, raw.name, hint);
      var nicknames :- NormalizedNicknames(OfFile(path), raw.nicknames);
      assert ValidNicknames(nicknames) by { NicknamesIdempotent(OfFile(path), OfFile(path), raw.nicknames); }
      assert ValidDescription(description) by { if raw.description.Some? { TrimSplits(raw.description.value); } }
      assert raw.name.Some? ==> Trimmed(Trim(raw.name.value)) by { if raw.name.Some? { TrimSplits(raw.name.value); } }
      Success(ResolvedRoleFile(roleName, description, nicknames))
  }

  function TrimOption(t: Option<string>): Option<string> {
    if t.None? then None else Some(Trim(t.value))
  }

  function TrimAllOption(names: Option<seq<string>>): Option<seq<string>> {
    if names.None? then None else Some(TrimAll(names.value))
  }

  predicate NotBlank(t: Option<string>) {
    t.Some? ==> Trim(t.value) != ""
  }

  predicate HasName(raw: RawRoleFile) {
    raw.name.Some? && Trim(raw.name.value) != ""
  }

  /**
   A deserialised role file is accepted if and only if its texts are not blank, its nicknames are
   valid after trimming, and, when no role name is given for it, it has a name and instructions
   of its own. Its own name then wins over the given one.
   */
  lemma {:induction false} RoleFileAcceptedIff(path: Path, raw: RawRoleFile, hint: Option<string>)
    ensures ParseRoleFile(path, Success(raw), hint).Success? <==>
            && NotBlank(raw.description) && NotBlank(raw.instructions)
            && ValidNicknames(TrimAllOption(raw.nicknames))
            && (hint.None? ==> HasName(raw) && raw.instructions.Some?)
    ensures ParseRoleFile(path, Success(raw), hint).Success? ==>
            var file := ParseRoleFile(path, Success(raw), hint).value;
            && file.description == TrimOption(raw.description)
            && file.nicknames == TrimAllOption(raw.nicknames)
            && file.roleName == if HasName(raw) then Trim(raw.name.value) else hint.value
  {
    if raw.nicknames.Some? {
      NicknamesAccepted(OfFile(path), raw.nicknames.value);
    }
  }

  /** Which error a deserialised role file gives: the first of these that applies, in this order. */
  lemma {:induction false} RoleFileErrorIs(path: Path, raw: RawRoleFile, hint: Option<string>)
    ensures var r := ParseRoleFile(path, Success(raw), hint);
            var unnamed := hint.None? && (raw.name.None? || Trim(raw.name.value) == "");
            && (!NotBlank(raw.description) ==> r == Failure(BlankDescription(OfFile(path))))
            && (NotBlank(raw.description) ==>
                 && (!NotBlank(raw.instructions) ==> r == Failure(BlankInstructions(path)))
                 && (raw.instructions.None? && hint.None? ==> r == Failure(MissingInstructions(path)))
                 && (NotBlank(raw.instructions) && (raw.instructions.Some? || hint.Some?) ==>
                      && (unnamed ==> r == Failure(MissingName(path)))
                      && (!unnamed && r.Failure? ==> NormalizedNicknames(OfFile(path), raw.nicknames) == Failure(r.error))))
  {
  }
}
