/**
 * The user and session directory: one `UserModel` per account, the password held as
 * whatever JSON value the user file stored, and a per-user list of the IP addresses
 * currently logged in. The process-wide `AllUsers` list is passed to `Find` explicitly.
 */
module Accounts {
  import opened Wrappers
  import Ascii
  import Text

  /** The value the JSON deserializer stores in the `object`-typed password property. */
  datatype JsonValue =
    | JsonString(text: string)        // "1234"
    | JsonNumber(literal: string)     // 1234, kept as the digits written in the file
    | JsonBool(truth: bool)           // true / false
    | JsonNull                        // null
    | JsonStructured(rawText: string) // an object or an array, kept as written

  /** No IP address occurs twice in a session list. */
  predicate NoDuplicates(sessions: seq<string>) {
    forall i, j :: 0 <= i < j < |sessions| ==> sessions[i] != sessions[j]
  }

  /** The session list after `Login`: `ip` is appended unless it is already present. */
  function WithSession(sessions: seq<string>, ip: string): (r: seq<string>)
    ensures ip in r
    ensures |sessions| <= |r| <= |sessions| + 1
    ensures r[..|sessions|] == sessions
    ensures forall x :: x in r <==> x in sessions || x == ip
  {
    if ip in sessions then sessions else sessions + [ip]
  }

  /** The session list after `Logout`: `List.Remove` drops the first occurrence of `ip`, if any. */
  function WithoutSession(sessions: seq<string>, ip: string): (r: seq<string>)
    ensures |r| == if ip in sessions then |sessions| - 1 else |sessions|
  {
    if sessions == [] then []
    else if sessions[0] == ip then sessions[1..]
    else [sessions[0]] + WithoutSession(sessions[1..], ip)
  }

  /** Logout takes one copy of `ip` out of the list, if there is one, and keeps every other entry. */
  lemma {:induction false} WithoutSessionCounts(sessions: seq<string>, ip: string)
    ensures multiset(WithoutSession(sessions, ip)) == multiset(sessions) - multiset{ip}
    decreases |sessions|
  {
    if sessions != [] {
      assert sessions == [sessions[0]] + sessions[1..];
      if sessions[0] != ip {
        WithoutSessionCounts(sessions[1..], ip);
      }
    }
  }

  /**
   * `char.ToUpper(part[0]) + part.Substring(1)`: a segment with its first letter
   * upper-cased. Only defined on a non-empty segment; `part[0]` throws on an empty one.
   */
  function Capitalize(part: string): (r: string)
    requires part != []
    ensures |r| == |part| && r[0] == Ascii.ToUpperChar(part[0]) && r[1..] == part[1..]
  {
    [Ascii.ToUpperChar(part[0])] + part[1..]
  }

  function CapitalizeAll(parts: seq<string>): (r: seq<string>)
    requires forall k :: 0 <= k < |parts| ==> parts[k] != []
    ensures |r| == |parts| && forall k :: 0 <= k < |parts| ==> r[k] == Capitalize(parts[k])
  {
    seq(|parts|, k requires 0 <= k < |parts| => Capitalize(parts[k]))
  }

  /**
   * `Email.Split('@')[0]`: the local part of an address, i.e. everything before the
   * first `@`, or the whole address when it has none.
   */
  function LocalPart(email: string): (local: string)
    ensures |local| <= |email| && local == email[..|local|]
    ensures '@' !in local
    ensures |local| < |email| ==> email[|local|] == '@'
  {
    Text.FirstSegment(email, '@');
    Text.Split(email, '@')[0]
  }

  /** The local part has an empty `.`-segment, which makes `part[0]` throw. */
  predicate MalformedLocalPart(local: string) {
    local == [] || local[0] == '.' || local[|local| - 1] == '.' || Text.HasDoubled(local, '.')
  }

  /**
   * The character the display name holds at position `i` of the local part: a `.`
   * becomes a space, the first letter of every segment is upper-cased, the rest is kept.
   */
  function DisplayChar(local: string, i: nat): char
    requires i < |local|
  {
    if local[i] == '.' then ' '
    else if i == 0 || local[i - 1] == '.' then Ascii.ToUpperChar(local[i])
    else local[i]
  }

  /** Capitalising the segments and joining them with spaces, described character by character. */
  lemma {:induction false} JoinCapitalized(parts: seq<string>)
    requires |parts| >= 1
    requires forall k :: 0 <= k < |parts| ==> parts[k] != [] && '.' !in parts[k]
    ensures |Text.Join(CapitalizeAll(parts), ' ')| == |Text.Join(parts, '.')|
    ensures forall i :: 0 <= i < |Text.Join(parts, '.')| ==>
      Text.Join(CapitalizeAll(parts), ' ')[i] == DisplayChar(Text.Join(parts, '.'), i)
    decreases |parts|
  {
    var h := parts[0];
    var caps := CapitalizeAll(parts);
    var dotted := Text.Join(parts, '.');
    var spaced := Text.Join(caps, ' ');
    if |parts| == 1 {
      assert dotted == h && spaced == Capitalize(h);
      forall i | 0 <= i < |dotted| ensures spaced[i] == DisplayChar(dotted, i) {
        assert h[i] in h;
        if i > 0 { assert h[i - 1] in h; }
      }
    } else {
      var tail := parts[1..];
      JoinCapitalized(tail);
      var dotted' := Text.Join(tail, '.');
      var spaced' := Text.Join(CapitalizeAll(tail), ' ');
      assert caps[1..] == CapitalizeAll(tail);
      assert dotted == h + ['.'] + dotted';
      assert spaced == Capitalize(h) + [' '] + spaced';
      forall i | 0 <= i < |dotted| ensures spaced[i] == DisplayChar(dotted, i) {
        if i < |h| {
          assert dotted[i] == h[i] && h[i] in h;
          if i > 0 { assert dotted[i - 1] == h[i - 1] && h[i - 1] in h; }
        } else if i > |h| {
          var j := i - |h| - 1;
          assert dotted[i] == dotted'[j] && spaced[i] == spaced'[j];
          if j > 0 { assert dotted[i - 1] == dotted'[j - 1]; }
        }
      }
    }
  }

  class UserModel {
    /** The `account` property. */
    const email: string
    /** The `password` property, as deserialized. */
    const rawPassword: JsonValue
    /** The IP addresses this user is logged in from, in login order. */
    var sessions: seq<string>

    constructor (email: string, rawPassword: JsonValue)
      ensures this.email == email && this.rawPassword == rawPassword
      ensures sessions == [] && NoDuplicates(sessions)
    {
      this.email := email;
      this.rawPassword := rawPassword;
      sessions := [];
    }

    /**
     * `RawPassword?.ToString() ?? ""`, where the deserialized value's `ToString` gives a
     * string's contents without quotes, a number's or a structure's text as written,
     * `True`/`False` for a boolean and the empty string for null.
     */
    function Password(): (p: string)
      ensures rawPassword.JsonString? ==> p == rawPassword.text
      ensures rawPassword.JsonNumber? ==> p == rawPassword.literal
      ensures rawPassword.JsonNull? ==> p == []
      ensures rawPassword.JsonBool? ==> p == (if rawPassword.truth then "True" else "False")
      ensures rawPassword.JsonStructured? ==> p == rawPassword.rawText
    {
      match rawPassword
      case JsonString(text) => text
      case JsonNumber(literal) => literal
      case JsonBool(truth) => if truth then "True" else "False"
      case JsonNull => []
      case JsonStructured(rawText) => rawText
    }

    /** Exact, case-sensitive comparison of the candidate with the stored password. */
    function VerifyPassword(password: string): (ok: bool)
      ensures ok <==>
        (|password| == |Password()| && forall i :: 0 <= i < |password| ==> password[i] == Password()[i])
    {
      Password() == password
    }

    /**
     * The display name: "Unknown" for an empty address, otherwise the local part with
     * every `.`-segment capitalised and the segments joined by single spaces. Indexing
     * the first character of an empty segment throws.
     */
    function Username(): (r: Outcome<string>)
      ensures email == [] ==> r == Ok("Unknown")
      ensures r.Throws? <==> email != [] && MalformedLocalPart(LocalPart(email))
      ensures r.Ok? && email != [] ==>
        |r.value| == |LocalPart(email)| &&
        forall i :: 0 <= i < |r.value| ==> r.value[i] == DisplayChar(LocalPart(email), i)
    {
      if email == [] then Ok("Unknown")
      else
        var local := LocalPart(email);
        var parts := Text.Split(local, '.');
        Text.EmptySegment(local, '.');
        if Text.HasEmpty(parts) then Throws(IndexOutOfRange)
        else
          Text.JoinSplit(local, '.');
          JoinCapitalized(parts);
          Ok(Text.Join(CapitalizeAll(parts), ' '))
    }

    /**
     * The first user of `allUsers` whose address equals `email` ignoring case, or
     * `None` when there is none.
     */
    static function Find(allUsers: seq<UserModel>, email: string): (r: Option<UserModel>)
      ensures r.None? <==>
        forall k :: 0 <= k < |allUsers| ==> !Ascii.EqualsIgnoreCase(allUsers[k].email, email)
      ensures r.Some? ==>
        (exists k :: 0 <= k < |allUsers| && allUsers[k] == r.value &&
          Ascii.EqualsIgnoreCase(allUsers[k].email, email) &&
          forall j :: 0 <= j < k ==> !Ascii.EqualsIgnoreCase(allUsers[j].email, email))
    {
      if allUsers == [] then None
      else if Ascii.EqualsIgnoreCase(allUsers[0].email, email) then Some(allUsers[0])
      else
        var r := Find(allUsers[1..], email);
        assert forall k :: 1 <= k < |allUsers| ==> allUsers[k] == allUsers[1..][k - 1];
        r
    }

    /** `user.Sessions.Contains(ip)`. */
    static function IsLoggedIn(user: UserModel, ip: string): (b: bool)
      reads user
      ensures b <==> exists k :: 0 <= k < |user.sessions| && user.sessions[k] == ip
    {
      ip in user.sessions
    }

    /** Records a session from `ip`, unless one is already recorded. */
    static method Login(user: UserModel, ip: string)
      modifies user
      ensures user.sessions == WithSession(old(user.sessions), ip)
      ensures IsLoggedIn(user, ip)
      ensures NoDuplicates(old(user.sessions)) ==> NoDuplicates(user.sessions)
    {
      if ip !in user.sessions {
        user.sessions := user.sessions + [ip];
      }
    }

    /** Removes the first session recorded from `ip`, if any. */
    static method Logout(user: UserModel, ip: string)
      modifies user
      ensures user.sessions == WithoutSession(old(user.sessions), ip)
      ensures NoDuplicates(old(user.sessions)) ==>
        NoDuplicates(user.sessions) && !IsLoggedIn(user, ip)
    {
      if NoDuplicates(user.sessions) {
        LogoutKeepsNoDuplicates(user.sessions, ip);
      }
      user.sessions := WithoutSession(user.sessions, ip);
    }
  }

  /** A second login from the same IP changes nothing. */
  lemma LoginIdempotent(sessions: seq<string>, ip: string)
    ensures WithSession(WithSession(sessions, ip), ip) == WithSession(sessions, ip)
  {
  }

  /** Login never introduces a duplicate. */
  lemma LoginKeepsNoDuplicates(sessions: seq<string>, ip: string)
    requires NoDuplicates(sessions)
    ensures NoDuplicates(WithSession(sessions, ip))
  {
  }

  /**
   * Logout removes exactly the first occurrence of `ip` and keeps the others in order;
   * without an occurrence it changes nothing.
   */
  lemma {:induction false} LogoutRemovesFirst(sessions: seq<string>, ip: string)
    ensures ip !in sessions ==> WithoutSession(sessions, ip) == sessions
    ensures ip in sessions ==>
      (exists k :: 0 <= k < |sessions| && sessions[k] == ip &&
        ip !in sessions[..k] && WithoutSession(sessions, ip) == sessions[..k] + sessions[k + 1..])
    decreases |sessions|
  {
    if sessions != [] {
      var rest := sessions[1..];
      LogoutRemovesFirst(rest, ip);
      if sessions[0] == ip {
        assert sessions[..0] == [] && sessions[0 + 1..] == rest;
        assert WithoutSession(sessions, ip) == sessions[..0] + sessions[0 + 1..];
      } else {
        assert WithoutSession(sessions, ip) == [sessions[0]] + WithoutSession(rest, ip);
        if ip in rest {
          var k :| 0 <= k < |rest| && rest[k] == ip && ip !in rest[..k] &&
            WithoutSession(rest, ip) == rest[..k] + rest[k + 1..];
          ShiftedRemoval(sessions, k);
          assert sessions[k + 1] == ip && ip !in sessions[..k + 1];
          assert WithoutSession(sessions, ip) == sessions[..k + 1] + sessions[k + 1 + 1..];
        } else {
          assert sessions == [sessions[0]] + rest;
        }
      }
    }
  }

  /** Removing position `k + 1` of a list is keeping its head and removing position `k` of its tail. */
  lemma ShiftedRemoval(sessions: seq<string>, k: nat)
    requires k + 1 < |sessions|
    ensures sessions[..k + 1] == [sessions[0]] + sessions[1..][..k]
    ensures sessions[k + 2..] == sessions[1..][k + 1..]
    ensures sessions[k + 1] == sessions[1..][k]
    ensures [sessions[0]] + (sessions[1..][..k] + sessions[1..][k + 1..]) ==
      sessions[..k + 1] + sessions[k + 2..]
  {
  }

  /** On a list without duplicates, logout keeps it so and leaves `ip` logged out. */
  lemma {:induction false} LogoutKeepsNoDuplicates(sessions: seq<string>, ip: string)
    requires NoDuplicates(sessions)
    ensures NoDuplicates(WithoutSession(sessions, ip))
    ensures ip !in WithoutSession(sessions, ip)
    decreases |sessions|
  {
    if sessions != [] {
      var rest := sessions[1..];
      LogoutKeepsNoDuplicates(rest, ip);
      if sessions[0] == ip {
        assert forall j :: 0 <= j < |rest| ==> rest[j] == sessions[j + 1];
      } else {
        var r := WithoutSession(rest, ip);
        WithoutSessionCounts(rest, ip);
        assert multiset(r) <= multiset(rest);
        assert sessions[0] !in rest by {
          forall j | 0 <= j < |rest| ensures rest[j] != sessions[0] {
            assert rest[j] == sessions[j + 1];
          }
        }
        assert multiset(rest)[sessions[0]] == 0;
      }
    }
  }

  /** Logging out from an IP that was not logged in undoes a login from it. */
  lemma {:induction false} LogoutUndoesLogin(sessions: seq<string>, ip: string)
    requires ip !in sessions
    ensures WithoutSession(WithSession(sessions, ip), ip) == sessions
  {
    assert WithSession(sessions, ip) == sessions + [ip];
    RemoveAppended(sessions, ip);
  }

  /** Removing an IP appended to a list that did not hold it restores the list. */
  lemma {:induction false} RemoveAppended(sessions: seq<string>, ip: string)
    requires ip !in sessions
    ensures WithoutSession(sessions + [ip], ip) == sessions
    decreases |sessions|
  {
    if sessions != [] {
      var rest := sessions[1..];
      RemoveAppended(rest, ip);
      assert (sessions + [ip])[0] == sessions[0];
      assert (sessions + [ip])[1..] == rest + [ip];
    }
  }

  /** A password stored as the number 1234 and one stored as the string "1234" accept the same input. */
  lemma NumberAndStringPasswordsAgree(u: UserModel, v: UserModel, text: string, candidate: string)
    requires u.rawPassword == JsonNumber(text) && v.rawPassword == JsonString(text)
    ensures u.Password() == v.Password() == text
    ensures u.VerifyPassword(candidate) == v.VerifyPassword(candidate)
  {
  }

  /** Lookup depends on the address only up to letter case. */
  lemma FindIgnoresCase(allUsers: seq<UserModel>, e1: string, e2: string)
    requires Ascii.EqualsIgnoreCase(e1, e2)
    ensures UserModel.Find(allUsers, e1) == UserModel.Find(allUsers, e2)
  {
  }
}
