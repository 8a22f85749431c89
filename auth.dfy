/** The `basicAuth` middleware: the accept/reject rule it applies to the
    `Authorization` header of a request to the read API, against the
    credentials configured in `BASIC_AUTH_USERNAME` and
    `BASIC_AUTH_PASSWORD`. The header is meant to follow the HTTP Basic
    scheme (section 2 of RFC 7617): a scheme word, a space, and the base64
    encoding (section 4 of RFC 4648) of `user-id ":" password`. */
module BasicAuth {
  import opened Basics
  import opened Strings

  /** The configured user name and password; an unset environment variable
      is `undefined`, which is `None` here. */
  datatype Credentials = Credentials(username: Option<string>, password: Option<string>)

  /** What the middleware does with a request. */
  datatype Decision =
    | Proceed                       // calls `next()`: the route handler runs
    | Unauthorized(message: string) // answers 401 with `{ message }`
    | Crashed                       // throws; Express answers 500 itself

  const MissingHeader: string := "Authorization header is missing"
  const InvalidCredentials: string := "Invalid username or password"

  /** Element `i` of a JavaScript array, `undefined` past its end. */
  function Element(fields: seq<string>, i: nat): Option<string>
  {
    if i < |fields| then Some(fields[i]) else None
  }

  /** The middleware's decision. `decode` stands for
      `Buffer.from(t, 'base64').toString('ascii')`. A missing or empty
      header is falsy and rejected at once. Otherwise the second
      space-separated word is decoded; when there is no second word,
      `Buffer.from(undefined, ...)` throws. The decoded text is split at
      every `:` and its first two fields are compared, with `===`, to the
      configured user name and password. */
  function Decide(header: Option<string>, config: Credentials, decode: string -> string): (d: Decision)
    ensures d == Unauthorized(MissingHeader) <==> header == None || header == Some("")
    ensures d == Crashed <==> header.Some? && header.value != "" && ' ' !in header.value
    ensures d.Unauthorized? ==> d.message in {MissingHeader, InvalidCredentials}
  {
    if header == None || header.value == "" then Unauthorized(MissingHeader)
    else
      var words := Split(header.value, ' ');
      if |words| < 2 then Crashed
      else
        var fields := Split(decode(words[1]), ':');
        if Element(fields, 0) == config.username && Element(fields, 1) == config.password
        then Proceed
        else Unauthorized(InvalidCredentials)
  }

  /** `text` begins with the fields `user` and `pass`: it is
      `user:pass`, possibly followed by a further `:` and anything. */
  predicate StartsWithFields(text: string, user: string, pass: string)
  {
    var both := user + ":" + pass;
    text == both || (|text| > |both| && text[..|both| + 1] == both + ":")
  }

  /** The first two `:`-fields of `text` are `user` and `pass` exactly when
      `text` is `user:pass`, possibly followed by `:` and anything (for a
      user and password without `:`). */
  lemma FirstTwoFields(text: string, user: string, pass: string)
    requires ':' !in user && ':' !in pass
    ensures (var f := Split(text, ':'); |f| >= 2 && f[0] == user && f[1] == pass)
            <==> StartsWithFields(text, user, pass)
  {
    var f := Split(text, ':');
    if |f| >= 2 && f[0] == user && f[1] == pass {
      FieldsStartText(text, user, pass);
    }
    if StartsWithFields(text, user, pass) {
      TextStartsFields(text, user, pass);
    }
  }

  /** Joining the fields back shows the text is `user:pass`, possibly followed by `:` and more. */
  lemma FieldsStartText(text: string, user: string, pass: string)
    requires var f := Split(text, ':'); |f| >= 2 && f[0] == user && f[1] == pass
    ensures StartsWithFields(text, user, pass)
  {
    var both := user + ":" + pass;
    var f := Split(text, ':');
    assert text == user + [':'] + Join(f[1..], ':');
    if |f| > 2 {
      var rest := Join(f[2..], ':');
      assert Join(f[1..], ':') == pass + [':'] + rest;
      assert text == both + ":" + rest;
      assert text[..|both| + 1] == both + ":";
    }
  }

  /** A text `user:pass`, possibly followed by `:` and more, splits into `user`, `pass`, ... */
  lemma TextStartsFields(text: string, user: string, pass: string)
    requires ':' !in user && ':' !in pass
    requires StartsWithFields(text, user, pass)
    ensures var f := Split(text, ':'); |f| >= 2 && f[0] == user && f[1] == pass
  {
    var both := user + ":" + pass;
    if text == both {
      SplitPrefix(user, pass, ':');
      NoSeparatorIsOneField(pass, ':');
    } else {
      var rest := text[|both| + 1..];
      assert text == user + [':'] + (pass + [':'] + rest);
      SplitPrefix(user, pass + [':'] + rest, ':');
      SplitPrefix(pass, rest, ':');
    }
  }

  /** With a user name and a password configured, neither containing `:`,
      a request is let through exactly when its header has a second word
      whose decoding is `user:password`, possibly followed by `:` and
      anything; any other text after the password is rejected. */
  lemma AcceptsIff(header: string, user: string, pass: string, decode: string -> string)
    requires ':' !in user && ':' !in pass
    ensures Decide(Some(header), Credentials(Some(user), Some(pass)), decode) == Proceed
            <==> ' ' in header && StartsWithFields(decode(Split(header, ' ')[1]), user, pass)
  {
    if ' ' in header {
      FirstTwoFields(decode(Split(header, ' ')[1]), user, pass);
    }
  }

  /** The scheme word is never looked at: `Basic`, `Bearer` or anything
      else without a space leads to the same decision. */
  lemma SchemeIgnored(scheme1: string, scheme2: string, rest: string,
                      config: Credentials, decode: string -> string)
    requires ' ' !in scheme1 && ' ' !in scheme2
    ensures Decide(Some(scheme1 + " " + rest), config, decode)
         == Decide(Some(scheme2 + " " + rest), config, decode)
  {
    SplitPrefix(scheme1, rest, ' ');
    SplitPrefix(scheme2, rest, ' ');
  }

  /** A header built as section 2 of RFC 7617 prescribes, `Basic <token>`
      with a space-free token, is accepted for a configured user name and
      password without `:`. A password with `:`, which the RFC allows, is
      never matched (`ColonPasswordNeverMatches`). */
  lemma AcceptsWellFormedHeader(token: string, user: string, pass: string, decode: string -> string)
    requires ' ' !in token && ':' !in user && ':' !in pass
    requires decode(token) == user + ":" + pass
    ensures Decide(Some("Basic " + token), Credentials(Some(user), Some(pass)), decode) == Proceed
  {
    assert "Basic " + token == "Basic" + [' '] + token;
    SplitPrefix("Basic", token, ' ');
    NoSeparatorIsOneField(token, ' ');
    assert Split("Basic " + token, ' ')[1] == token;
    FirstTwoFields(decode(token), user, pass);
  }

  /** A configured password that contains `:` can never be matched: no field
      of `split(':')` contains a `:`. */
  lemma ColonPasswordNeverMatches(header: Option<string>, config: Credentials, decode: string -> string)
    requires config.password.Some? && ':' in config.password.value
    ensures Decide(header, config, decode) != Proceed
  {
  }

  /** A configured user name that contains `:` can never be matched either:
      the first field of `split(':')` holds no `:`. */
  lemma ColonUsernameNeverMatches(header: Option<string>, config: Credentials, decode: string -> string)
    requires config.username.Some? && ':' in config.username.value
    ensures Decide(header, config, decode) != Proceed
  {
  }

  /** With `BASIC_AUTH_USERNAME` unset nobody gets through: the first field
      is always a string, never `undefined`. */
  lemma UnsetUsernameRejectsAll(header: Option<string>, config: Credentials, decode: string -> string)
    requires config.username == None
    ensures Decide(header, config, decode) != Proceed
  {
  }

  /** With `BASIC_AUTH_PASSWORD` unset, `undefined === undefined` lets
      through a decoded text that is the user name with no `:` at all. */
  lemma UnsetPasswordAcceptsBareUser(token: string, user: string, decode: string -> string)
    requires ' ' !in token && ':' !in user
    requires decode(token) == user
    ensures Decide(Some("Basic " + token), Credentials(Some(user), None), decode) == Proceed
  {
    assert "Basic " + token == "Basic" + [' '] + token;
    SplitPrefix("Basic", token, ' ');
    NoSeparatorIsOneField(token, ' ');
    assert Split("Basic " + token, ' ')[1] == token;
    NoSeparatorIsOneField(user, ':');
  }

  /** With `BASIC_AUTH_PASSWORD` unset and a user name without `:`, a
      request is let through exactly when its header has a second word
      that decodes to the user name alone: any `:` gives a second field,
      which is a string and never `undefined`. */
  lemma UnsetPasswordIff(header: string, user: string, decode: string -> string)
    requires ':' !in user
    ensures Decide(Some(header), Credentials(Some(user), None), decode) == Proceed
            <==> ' ' in header && decode(Split(header, ' ')[1]) == user
  {
    if ' ' in header {
      var text := decode(Split(header, ' ')[1]);
      var fields := Split(text, ':');
      if text == user {
        NoSeparatorIsOneField(user, ':');
      }
      if |fields| == 1 {
        assert Join(fields, ':') == fields[0];
      }
    }
  }
}
