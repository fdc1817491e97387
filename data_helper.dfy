/**
 * The username and password rules applied when an account is created.
 * Lengths are Go string lengths, that is UTF-8 byte counts.
 */
module DataHelper {
  import opened Wrappers
  import opened Strings
  import opened DataModels

  /**
   * ValidateUsername: the name is trimmed of white space; a blank name is
   * refused, and so is one whose trimmed byte length lies outside the
   * configured bounds.
   */
  function ValidateUsername(cfg: DataConfig, username: string): (r: Option<AccountRule>)
    ensures r == Some(UsernameEmpty) <==> AllSpace(username)
    ensures r.None? <==>
      !AllSpace(username) && cfg.minUsernameLen <= Utf8Len(TrimSpace(username)) <= cfg.maxUsernameLen
    ensures r.Some? ==> r.value == UsernameEmpty || r.value == UsernameLength
  {
    var trimmed := TrimSpace(username);
    if trimmed == "" then Some(UsernameEmpty)
    else if Utf8Len(trimmed) < cfg.minUsernameLen || Utf8Len(trimmed) > cfg.maxUsernameLen then Some(UsernameLength)
    else None
  }

  /** Surrounding white space never changes the verdict on a username. */
  lemma UsernameIgnoresSurroundingSpace(cfg: DataConfig, pad1: string, name: string, pad2: string)
    requires AllSpace(pad1) && AllSpace(pad2)
    requires name != [] && !IsSpace(name[0]) && !IsSpace(name[|name| - 1])
    ensures ValidateUsername(cfg, pad1 + name + pad2) == ValidateUsername(cfg, name)
  {
    TrimOfPadded(pad1, name, pad2);
    TrimOfBare(name);
    SameTrimSameVerdict(cfg, pad1 + name + pad2, name);
  }

  /** A string with no white space at either end trims to itself. */
  lemma TrimOfBare(name: string)
    requires name != [] && !IsSpace(name[0]) && !IsSpace(name[|name| - 1])
    ensures TrimSpace(name) == name
  {
    TrimOfPadded("", name, "");
    assert "" + name + "" == name;
  }

  /** The verdict depends on the trimmed name only. */
  lemma SameTrimSameVerdict(cfg: DataConfig, s: string, t: string)
    requires TrimSpace(s) == TrimSpace(t)
    ensures ValidateUsername(cfg, s) == ValidateUsername(cfg, t)
  {
  }

  /** Trimming a padded string gives back the string between the pads. */
  lemma {:induction false} TrimOfPadded(pad1: string, name: string, pad2: string)
    requires AllSpace(pad1) && AllSpace(pad2)
    requires name != [] && !IsSpace(name[0]) && !IsSpace(name[|name| - 1])
    ensures TrimSpace(pad1 + name + pad2) == name
  {
    var rest := name + pad2;
    assert rest[0] == name[0];
    assert pad1 + name + pad2 == pad1 + rest;
    PaddedLeft(pad1, rest);
    PaddedRight(name, pad2);
  }

  lemma {:induction false} PaddedLeft(pad: string, rest: string)
    requires AllSpace(pad) && rest != [] && !IsSpace(rest[0])
    ensures TrimLeft(pad + rest) == rest
    decreases |pad|
  {
    if pad != [] {
      var s := pad + rest;
      assert s[0] == pad[0] && IsSpace(pad[0]);
      assert s[1..] == pad[1..] + rest;
      assert AllSpace(pad[1..]) by {
        forall i | 0 <= i < |pad| - 1 ensures IsSpace(pad[1..][i]) { assert pad[1..][i] == pad[i + 1]; }
      }
      PaddedLeft(pad[1..], rest);
    } else {
      assert pad + rest == rest;
    }
  }

  lemma {:induction false} PaddedRight(rest: string, pad: string)
    requires AllSpace(pad) && rest != [] && !IsSpace(rest[|rest| - 1])
    ensures TrimRight(rest + pad) == rest
    decreases |pad|
  {
    if pad != [] {
      var s := rest + pad;
      assert s[..|s| - 1] == rest + pad[..|pad| - 1];
      PaddedRight(rest, pad[..|pad| - 1]);
    } else {
      assert rest + pad == rest;
    }
  }

  /** `unicode.IsUpper`, `unicode.IsLower` and `unicode.IsNumber`, restricted to ASCII. */
  predicate IsUpper(c: char) { 'A' <= c <= 'Z' }
  predicate IsLower(c: char) { 'a' <= c <= 'z' }
  predicate IsNumber(c: char) { '0' <= c <= '9' }

  predicate HasUpper(s: string) { exists i | 0 <= i < |s| :: IsUpper(s[i]) }
  predicate HasLower(s: string) { exists i | 0 <= i < |s| :: IsLower(s[i]) }
  predicate HasNumber(s: string) { exists i | 0 <= i < |s| :: IsNumber(s[i]) }

  /** The composition rule: an uppercase letter, a lowercase letter and a digit somewhere. */
  predicate Composed(s: string) {
    HasUpper(s) && HasLower(s) && HasNumber(s)
  }

  /** The verdict of ValidatePassword: the length is checked first, the composition second. */
  function PasswordRule(cfg: DataConfig, password: string): Option<AccountRule> {
    if Utf8Len(password) < cfg.minPasswordLen || Utf8Len(password) > cfg.maxPasswordLen then Some(PasswordLength)
    else if !Composed(password) then Some(PasswordComposition)
    else None
  }

  /**
   * ValidatePassword: checks the byte length, then walks the characters
   * setting a flag for each class seen, the first matching class winning.
   */
  method ValidatePassword(cfg: DataConfig, password: string) returns (err: Option<AccountRule>)
    ensures err == PasswordRule(cfg, password)
  {
    var n := Utf8Len(password);
    if n < cfg.minPasswordLen || n > cfg.maxPasswordLen {
      return Some(PasswordLength);
    }
    var hasUpper, hasLower, hasNumber := false, false, false;
    var i := 0;
    while i < |password|
      invariant 0 <= i <= |password|
      invariant hasUpper <==> exists j | 0 <= j < i :: IsUpper(password[j])
      invariant hasLower <==> exists j | 0 <= j < i :: IsLower(password[j])
      invariant hasNumber <==> exists j | 0 <= j < i :: IsNumber(password[j])
    {
      var c := password[i];
      if IsUpper(c) {
        hasUpper := true;
      } else if IsLower(c) {
        hasLower := true;
      } else if IsNumber(c) {
        hasNumber := true;
      }
      i := i + 1;
    }
    if !hasUpper || !hasLower || !hasNumber {
      return Some(PasswordComposition);
    }
    return None;
  }

  /** A password of the wrong length is refused for its length, whatever its characters. */
  lemma LengthCheckedFirst(cfg: DataConfig, p: string, q: string)
    requires Utf8Len(p) == Utf8Len(q)
    requires Utf8Len(p) < cfg.minPasswordLen || Utf8Len(p) > cfg.maxPasswordLen
    ensures PasswordRule(cfg, p) == PasswordRule(cfg, q) == Some(PasswordLength)
  {
  }

  /**
   * A password of valid length passes exactly when it has an uppercase
   * letter, a lowercase letter and a digit.
   */
  lemma CompositionRule(cfg: DataConfig, p: string)
    requires cfg.minPasswordLen <= Utf8Len(p) <= cfg.maxPasswordLen
    ensures PasswordRule(cfg, p).None? <==>
      (exists i | 0 <= i < |p| :: 'A' <= p[i] <= 'Z') && (exists i | 0 <= i < |p| :: 'a' <= p[i] <= 'z')
      && (exists i | 0 <= i < |p| :: '0' <= p[i] <= '9')
    ensures PasswordRule(cfg, p).Some? ==> PasswordRule(cfg, p) == Some(PasswordComposition)
  {
    var r := PasswordRule(cfg, p);
    if (exists i | 0 <= i < |p| :: 'A' <= p[i] <= 'Z') && (exists i | 0 <= i < |p| :: 'a' <= p[i] <= 'z')
      && (exists i | 0 <= i < |p| :: '0' <= p[i] <= '9') {
      var a :| 0 <= a < |p| && 'A' <= p[a] <= 'Z';
      var b :| 0 <= b < |p| && 'a' <= p[b] <= 'z';
      var c :| 0 <= c < |p| && '0' <= p[c] <= '9';
      assert IsUpper(p[a]) && IsLower(p[b]) && IsNumber(p[c]);
    }
  }

  /** The three classes are disjoint, so the order of the switch cases does not matter. */
  lemma ClassesDisjoint(c: char)
    ensures !(IsUpper(c) && IsLower(c)) && !(IsUpper(c) && IsNumber(c)) && !(IsLower(c) && IsNumber(c))
  {
  }

  /** A character of no class, inserted anywhere, neither satisfies nor breaks the composition rule. */
  lemma {:induction false} OtherCharactersNeutral(s: string, k: nat, c: char)
    requires k <= |s| && !IsUpper(c) && !IsLower(c) && !IsNumber(c)
    ensures Composed(s[..k] + [c] + s[k..]) <==> Composed(s)
  {
    var t := s[..k] + [c] + s[k..];
    assert forall i | 0 <= i < k :: t[i] == s[i];
    assert forall i | k < i < |t| :: t[i] == s[i - 1];
    assert t[k] == c;
    ClassShifts(s, t, k, c);
  }

  lemma ClassShifts(s: string, t: string, k: nat, c: char)
    requires k <= |s| && |t| == |s| + 1 && t[k] == c && !IsUpper(c) && !IsLower(c) && !IsNumber(c)
    requires forall i | 0 <= i < k :: t[i] == s[i]
    requires forall i | k < i < |t| :: t[i] == s[i - 1]
    ensures HasUpper(t) <==> HasUpper(s)
    ensures HasLower(t) <==> HasLower(s)
    ensures HasNumber(t) <==> HasNumber(s)
  {
    if HasUpper(s) { var i :| 0 <= i < |s| && IsUpper(s[i]); assert IsUpper(t[if i < k then i else i + 1]); }
    if HasLower(s) { var i :| 0 <= i < |s| && IsLower(s[i]); assert IsLower(t[if i < k then i else i + 1]); }
    if HasNumber(s) { var i :| 0 <= i < |s| && IsNumber(s[i]); assert IsNumber(t[if i < k then i else i + 1]); }
    if HasUpper(t) { var i :| 0 <= i < |t| && IsUpper(t[i]); assert i != k; assert IsUpper(s[if i < k then i else i - 1]); }
    if HasLower(t) { var i :| 0 <= i < |t| && IsLower(t[i]); assert i != k; assert IsLower(s[if i < k then i else i - 1]); }
    if HasNumber(t) { var i :| 0 <= i < |t| && IsNumber(t[i]); assert i != k; assert IsNumber(s[if i < k then i else i - 1]); }
  }
}
