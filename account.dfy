/**
 * The two string helpers of docs/app.js that sit beside the stopwatch:
 * `maskEmail`, which shortens the signed-in user's address for the badge
 * (docs/app.js:105-110), and `isConfigSet`, which decides whether the
 * Firebase configuration has been filled in (docs/app.js:112-121).
 */
module Account {
  import opened Wrappers

  /** `parts.join(sep)`. */
  function Join(parts: seq<string>, sep: char): string
    requires |parts| >= 1
  {
    if |parts| == 1 then parts[0] else parts[0] + [sep] + Join(parts[1..], sep)
  }

  /** `s.split(sep)` for a one-character separator: the pieces between separators, joined back to `s`. */
  function Split(s: string, sep: char): (parts: seq<string>)
    ensures |parts| >= 1
    ensures forall i :: 0 <= i < |parts| ==> sep !in parts[i]
    ensures Join(parts, sep) == s
  {
    if s == [] then [""]
    else
      var rest := Split(s[1..], sep);
      if s[0] == sep then
        assert s == [sep] + s[1..];
        [""] + rest
      else
        var parts := [[s[0]] + rest[0]] + rest[1..];
        assert parts[1..] == rest[1..];
        assert s == [s[0]] + s[1..];
        parts
  }

  lemma {:induction false} SplitWithout(s: string, sep: char)
    requires sep !in s
    ensures Split(s, sep) == [s]
  {
    if s != [] {
      SplitWithout(s[1..], sep);
      assert [s[0]] + s[1..] == s;
    }
  }

  lemma SplitSeparator(t: string, sep: char)
    ensures Split([sep] + t, sep) == [""] + Split(t, sep)
  {
    assert ([sep] + t)[1..] == t;
  }

  lemma SplitOther(c: char, t: string, sep: char)
    requires c != sep
    ensures Split([c] + t, sep) == [[c] + Split(t, sep)[0]] + Split(t, sep)[1..]
  {
    assert ([c] + t)[1..] == t;
  }

  lemma {:induction false} SplitAtFirst(x: string, y: string, sep: char)
    requires sep !in x
    ensures Split(x + [sep] + y, sep) == [x] + Split(y, sep)
  {
    if x == [] {
      assert x + [sep] + y == [sep] + y;
      SplitSeparator(y, sep);
    } else {
      var t := x[1..] + [sep] + y;
      assert x + [sep] + y == [x[0]] + t;
      SplitOther(x[0], t, sep);
      SplitAtFirst(x[1..], y, sep);
      var rest := Split(t, sep);
      assert rest[0] == x[1..] && rest[1..] == Split(y, sep);
      assert [x[0]] + x[1..] == x;
    }
  }

  /** The local part as shown: kept whole up to two characters, else its first two and `***`. */
  function MaskName(name: string): (r: string)
    ensures |name| <= 2 ==> r == name
    ensures |name| > 2 ==> |r| == 5 && r[..2] == name[..2] && r[2..] == "***"
  {
    if |name| <= 2 then name else name[..2] + "***"
  }

  /**
   * `maskEmail(email)`: "Signed in" for a missing or empty address;
   * otherwise the part before the first `@`, masked, then `@` and the part
   * up to the next `@` (in JavaScript `undefined`, printed as such, when
   * the address has no `@` at all).
   */
  function MaskEmail(email: Option<string>): (r: string)
    ensures r == "Signed in" <==> email.None? || email.value == ""
  {
    if email.None? || email.value == "" then "Signed in"
    else
      var parts := Split(email.value, '@');
      var name := parts[0];
      var domain := if |parts| > 1 then parts[1] else "undefined";
      var r := MaskName(name) + "@" + domain;
      assert r[|MaskName(name)|] == '@';
      assert '@' !in "Signed in";
      r
  }

  /** An address with one `@` keeps its domain and shows at most two characters of its local part. */
  lemma MaskEmailShape(name: string, domain: string)
    requires '@' !in name && '@' !in domain
    ensures MaskEmail(Some(name + "@" + domain)) == MaskName(name) + "@" + domain
  {
    SplitAtFirst(name, domain, '@');
    SplitWithout(domain, '@');
  }

  /** An address without `@` renders its domain as `undefined`. */
  lemma MaskEmailNoAt(s: string)
    requires s != "" && '@' !in s
    ensures MaskEmail(Some(s)) == MaskName(s) + "@undefined"
  {
    SplitWithout(s, '@');
  }

  lemma MaskEmailEmpty()
    ensures MaskEmail(None) == "Signed in" && MaskEmail(Some("")) == "Signed in"
  {
  }

  /** A masked address is known once the address is split into its local part and domain. */
  lemma MasksAs(email: string, name: string, domain: string, shown: string)
    requires '@' !in name && '@' !in domain && email == name + "@" + domain
    requires shown == MaskName(name) + "@" + domain
    ensures MaskEmail(Some(email)) == shown
  {
    MaskEmailShape(name, domain);
  }

  lemma MaskEmailShort()
    ensures MaskEmail(Some("jo@example.com")) == "jo@example.com"
  {
    MasksAs("jo@example.com", "jo", "example.com", "jo@example.com");
  }

  lemma MaskEmailLong()
    ensures MaskEmail(Some("alice@example.com")) == "al***@example.com"
  {
    MasksAs("alice@example.com", "alice", "example.com", "al***@example.com");
  }

  /** `t` occurs in `s` starting at position `i`. */
  predicate OccursAt(s: string, t: string, i: int)
  {
    0 <= i <= |s| - |t| && s[i..i + |t|] == t
  }

  /** `s.includes(t)`: `t` occurs somewhere in `s`. */
  function Contains(s: string, t: string): (r: bool)
    ensures r <==> exists i :: OccursAt(s, t, i)
    decreases |s|
  {
    if |s| < |t| then false
    else if s[..|t|] == t then
      assert OccursAt(s, t, 0);
      true
    else
      var r := Contains(s[1..], t);
      assert r ==> exists i :: OccursAt(s, t, i) by {
        if r {
          var i :| OccursAt(s[1..], t, i);
          assert s[i + 1..i + 1 + |t|] == s[1..][i..i + |t|];
          assert OccursAt(s, t, i + 1);
        }
      }
      assert (exists i :: OccursAt(s, t, i)) ==> r by {
        if exists i :: OccursAt(s, t, i) {
          var i :| OccursAt(s, t, i);
          assert i != 0;
          assert s[1..][i - 1..i - 1 + |t|] == s[i..i + |t|];
          assert OccursAt(s[1..], t, i - 1);
        }
      }
      r
  }

  /** The configuration fields `isConfigSet` reads; absent ones are `None`. */
  datatype FirebaseConfig = FirebaseConfig(apiKey: Option<string>, authDomain: Option<string>, projectId: Option<string>, appId: Option<string>)

  /** JavaScript truthiness of an optional string: present and not empty. */
  predicate Truthy(v: Option<string>) { v.Some? && v.value != "" }

  const Placeholder := "PASTE_ME"

  /**
   * `isConfigSet(cfg)`: a configuration is present, its four required
   * fields are non-empty, and the API key does not contain the placeholder
   * `PASTE_ME` anywhere.
   */
  function IsConfigSet(cfg: Option<FirebaseConfig>): (r: bool)
    ensures r <==> && cfg.Some?
                   && Truthy(cfg.value.apiKey) && Truthy(cfg.value.authDomain)
                   && Truthy(cfg.value.projectId) && Truthy(cfg.value.appId)
                   && forall i :: !OccursAt(cfg.value.apiKey.value, Placeholder, i)
  {
    && cfg.Some?
    && Truthy(cfg.value.apiKey) && Truthy(cfg.value.authDomain)
    && Truthy(cfg.value.projectId) && Truthy(cfg.value.appId)
    && !Contains(cfg.value.apiKey.value, Placeholder)
  }

  /** A template whose key still holds the placeholder, anywhere in it, is never taken as set. */
  lemma PlaceholderKeyIsNotSet(cfg: FirebaseConfig, before: string, after: string)
    requires cfg.apiKey == Some(before + Placeholder + after)
    ensures !IsConfigSet(Some(cfg))
  {
    var k := before + Placeholder + after;
    assert k[|before|..|before| + |Placeholder|] == Placeholder;
    assert OccursAt(k, Placeholder, |before|);
  }
}
