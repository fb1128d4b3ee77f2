/** The Flask back end's request logic: the bearer-token guard put in front of the protected routes,
    the credential check of registration and login, the profile text the recommender reads, the
    profile-update query and the course lookup. Hashing, token signing, the database and the
    recommender's numerics sit behind parameters or are not part of this model. */
module Backend {
  import opened Wrappers
  import opened Strings
  import opened Seqs

  /** A JSON or database value as Python holds it; `Null` is Python's `None`. */
  datatype Value = Null | Bool(b: bool) | Int(i: int) | Text(s: string)

  /** Python truthiness, as `if not v` tests it. */
  predicate Truthy(v: Value) {
    match v
    case Null => false
    case Bool(b) => b
    case Int(i) => i != 0
    case Text(s) => s != ""
  }

  /** A JSON object or a database row read as a dictionary. */
  type Record = map<string, Value>

  /** `d.get(key, default)`. */
  function Get(d: Record, key: string, default: Value): Value {
    if key in d then d[key] else default
  }

  /** A JSON reply `jsonify({key: text})` with its HTTP status. */
  datatype Reply = Reply(status: int, key: string, text: string)

  // ---------------------------------------------------------------------------------------------
  // The bearer-token guard (`token_required`)
  // ---------------------------------------------------------------------------------------------

  /** The row `SELECT id, email FROM users WHERE id = %s` returns. */
  datatype UserRow = UserRow(id: int, email: string)

  /** What looking the user up yields: the row, no row, or a database error with its text. */
  datatype Lookup = Found(user: UserRow) | NoSuchUser | LookupFailed(reason: string)

  /** Base64 decoding, UTF-8 decoding and JSON parsing of the padded payload, ending in a dictionary;
      a failure carries the text of the exception raised (a JSON value that is not an object fails
      too, when `.get` is called on it). */
  type PayloadDecoder = string -> Result<Record, string>

  /** The user query for a `sub` value. */
  type UserLookup = Value -> Lookup

  /** The guard's verdict: the wrapped handler runs with the user, or the request is answered. */
  datatype Outcome = Authorized(user: UserRow) | Rejected(reply: Reply)

  const BearerPrefix: string := "Bearer "
  const TokenMissing: Reply := Reply(401, "error", "Token is missing")
  const InvalidTokenFormat: Reply := Reply(401, "error", "Invalid token format")
  const UserNotFound: Reply := Reply(401, "error", "User not found")
  /** The text of the `IndexError` raised by `token.split('.')[1]` on a token without a dot. */
  const NoSecondPiece: string := "list index out of range"

  /** The answer when anything inside the guard's `try` raises. */
  function ProcessingError(reason: string): (r: Reply)
    ensures r.status == 401 && r.key == "error"
    ensures r != TokenMissing && r != InvalidTokenFormat && r != UserNotFound
  {
    var text := "Error processing token: " + reason;
    assert text[0] == 'E';
    Reply(401, "error", text)
  }

  /** The token of an `Authorization` header (section 2.1 of RFC 6750): present exactly when the
      header starts with "Bearer ", and then it is `header.split(" ")[1]`, the run of non-space
      characters right after the prefix. */
  function BearerToken(authorization: Option<string>): (r: Option<string>)
    ensures r.Some? <==> authorization.Some? && StartsWith(authorization.value, BearerPrefix)
    ensures r.Some? ==> ' ' !in r.value && StartsWith(authorization.value, BearerPrefix + r.value)
    ensures r.Some? ==>
              var h, n := authorization.value, |BearerPrefix| + |r.value|;
              n == |h| || h[n] == ' '
  {
    if authorization.Some? && StartsWith(authorization.value, BearerPrefix) then
      BearerPiece(authorization.value);
      SecondPiece(authorization.value, ' ')
    else None
  }

  /** After the prefix "Bearer ", the second space-separated piece starts right at index 7. */
  lemma BearerPiece(h: string)
    requires StartsWith(h, BearerPrefix)
    ensures SecondPiece(h, ' ').Some?
    ensures var t := SecondPiece(h, ' ').value;
            StartsWith(h, BearerPrefix + t) && (7 + |t| == |h| || h[7 + |t|] == ' ')
  {
    assert h[6] == ' ';
    var t := SecondPiece(h, ' ').value;
    var i :| PieceAfter(h, ' ', t, i);
    assert forall j :: 0 <= j < 6 ==> h[j] == BearerPrefix[j] != ' ';
    assert i == 6;
    var w := BearerPrefix + t;
    forall k | 0 <= k < |w| ensures w[k] == h[k] {
      if k < 7 {
        assert h[..7] == BearerPrefix;
        assert h[..7][k] == h[k];
      } else {
        assert t == h[7..][..|t|];
      }
    }
  }

  /** `payload += '=' * (4 - len(payload) % 4)`: one to four '=' characters, so that the padded length
      is a multiple of four; a payload whose length already is a multiple of four gets four. */
  function Pad(payload: string): (r: string)
    ensures payload <= r && 1 <= |r| - |payload| <= 4
    ensures forall k :: |payload| <= k < |r| ==> r[k] == '='
    ensures |r| % 4 == 0
    ensures |payload| % 4 == 0 ==> |r| == |payload| + 4
  {
    payload + seq(4 - |payload| % 4, _ => '=')
  }

  /** The guard as a specification: take the bearer token, its second dot-separated segment, pad and
      decode it, read `sub`, look the user up. Neither the signature nor the `exp` claim is checked. */
  function Authorize(authorization: Option<string>, decode: PayloadDecoder, lookup: UserLookup): (r: Outcome)
    ensures r.Rejected? ==> r.reply.status == 401 && r.reply.key == "error"
  {
    match BearerToken(authorization)
    case None => Rejected(TokenMissing)
    case Some(token) =>
      if token == "" then Rejected(TokenMissing)
      else
        match SecondPiece(token, '.')
        case None => Rejected(ProcessingError(NoSecondPiece))
        case Some(payload) =>
          match decode(Pad(payload))
          case Failure(e) => Rejected(ProcessingError(e))
          case Success(data) =>
            var sub := Get(data, "sub", Null);
            if !Truthy(sub) then Rejected(InvalidTokenFormat)
            else
              match lookup(sub)
              case Found(user) => Authorized(user)
              case NoSuchUser => Rejected(UserNotFound)
              case LookupFailed(e) => Rejected(ProcessingError(e))
  }

  /** `token_required`'s decorated wrapper, step by step. */
  method TokenRequired(authorization: Option<string>, decode: PayloadDecoder, lookup: UserLookup)
    returns (r: Outcome)
    ensures r == Authorize(authorization, decode, lookup)
  {
    var token: Option<string> := None;
    if authorization.Some? {
      var header := authorization.value;
      if StartsWith(header, BearerPrefix) {
        token := BearerToken(authorization);
      }
    }
    if token.None? || token.value == "" {
      return Rejected(TokenMissing);
    }
    var segment := SecondPiece(token.value, '.');
    if segment.None? {
      return Rejected(ProcessingError(NoSecondPiece));
    }
    var payload := segment.value;
    payload := payload + seq(4 - |payload| % 4, _ => '=');
    assert payload == Pad(segment.value);
    var decoded := decode(payload);
    if decoded.Failure? {
      return Rejected(ProcessingError(decoded.error));
    }
    var userId := Get(decoded.value, "sub", Null);
    if !Truthy(userId) {
      return Rejected(InvalidTokenFormat);
    }
    var currentUser := lookup(userId);
    match currentUser
    case Found(user) => r := Authorized(user);
    case NoSuchUser => r := Rejected(UserNotFound);
    case LookupFailed(e) => r := Rejected(ProcessingError(e));
  }

  /** "Token is missing" is the answer exactly when there is no bearer token or it is empty. */
  lemma TokenMissingExactly(authorization: Option<string>, decode: PayloadDecoder, lookup: UserLookup)
    ensures Authorize(authorization, decode, lookup) == Rejected(TokenMissing)
            <==> BearerToken(authorization) in {None, Some("")}
  {
  }

  /** A user gets through only with a non-empty token holding a second segment that decodes to claims
      with a truthy `sub` naming an existing user. */
  lemma AuthorizedRequires(authorization: Option<string>, decode: PayloadDecoder, lookup: UserLookup, user: UserRow)
    requires Authorize(authorization, decode, lookup) == Authorized(user)
    ensures var t := BearerToken(authorization);
            && t.Some? && t.value != "" && '.' in t.value
            && var d := decode(Pad(SecondPiece(t.value, '.').value));
            && d.Success? && Truthy(Get(d.value, "sub", Null)) && lookup(Get(d.value, "sub", Null)) == Found(user)
  {
  }

  /** The converse: a non-empty token with a second segment that decodes to claims whose `sub` is
      truthy and names an existing user gets that user through. */
  lemma AuthorizedIf(authorization: Option<string>, decode: PayloadDecoder, lookup: UserLookup, user: UserRow)
    requires var t := BearerToken(authorization);
             && t.Some? && t.value != "" && '.' in t.value
             && var d := decode(Pad(SecondPiece(t.value, '.').value));
             && d.Success? && Truthy(Get(d.value, "sub", Null)) && lookup(Get(d.value, "sub", Null)) == Found(user)
    ensures Authorize(authorization, decode, lookup) == Authorized(user)
  {
  }

  /** "Invalid token format" is the answer exactly when the payload decodes but its `sub` is missing
      or falsy. */
  lemma InvalidTokenFormatExactly(authorization: Option<string>, decode: PayloadDecoder, lookup: UserLookup)
    ensures Authorize(authorization, decode, lookup) == Rejected(InvalidTokenFormat)
            <==> var t := BearerToken(authorization);
                 && t.Some? && t.value != "" && '.' in t.value
                 && var d := decode(Pad(SecondPiece(t.value, '.').value));
                 && d.Success? && !Truthy(Get(d.value, "sub", Null))
  {
    assert InvalidTokenFormat.text[0] == 'I' && UserNotFound.text[0] == 'U';
  }

  /** No signature check: two tokens with the same payload segment get the same verdict, whatever
      their header and signature segments hold. */
  lemma SignatureIgnored(h1: string, h2: string, decode: PayloadDecoder, lookup: UserLookup)
    requires BearerToken(Some(h1)).Some? && BearerToken(Some(h1)).value != ""
    requires BearerToken(Some(h2)).Some? && BearerToken(Some(h2)).value != ""
    requires SecondPiece(BearerToken(Some(h1)).value, '.') == SecondPiece(BearerToken(Some(h2)).value, '.')
    ensures Authorize(Some(h1), decode, lookup) == Authorize(Some(h2), decode, lookup)
  {
  }

  /** No expiry check: of the decoded claims only `sub` matters, so two payloads that decode to the
      same `sub` (and differ, say, in `exp`) get the same verdict. */
  lemma OnlySubMatters(authorization: Option<string>, decode1: PayloadDecoder, decode2: PayloadDecoder,
                       lookup: UserLookup)
    requires var t := BearerToken(authorization);
             t.Some? && '.' in t.value &&
             var p := Pad(SecondPiece(t.value, '.').value);
             && decode1(p).Success? && decode2(p).Success?
             && Get(decode1(p).value, "sub", Null) == Get(decode2(p).value, "sub", Null)
    ensures Authorize(authorization, decode1, lookup) == Authorize(authorization, decode2, lookup)
  {
  }

  // ---------------------------------------------------------------------------------------------
  // Registration and login
  // ---------------------------------------------------------------------------------------------

  const CredentialsRequired: Reply := Reply(400, "error", "Email and password are required")

  /** The input check `register` and `login` share: both fields present and truthy, else 400. */
  function CheckCredentials(data: Record): (r: Option<Reply>)
    ensures r.Some? ==> r.value == CredentialsRequired
  {
    if !Truthy(Get(data, "email", Null)) || !Truthy(Get(data, "password", Null)) then Some(CredentialsRequired)
    else None
  }

  /** A missing, null or empty email or password is refused. */
  lemma MissingCredentialsRefused(data: Record)
    requires || "email" !in data || data["email"] in {Null, Text("")}
             || "password" !in data || data["password"] in {Null, Text("")}
    ensures CheckCredentials(data) == Some(CredentialsRequired)
  {
  }

  /** A non-empty email with a non-empty password passes the check. */
  lemma CredentialsAccepted(data: Record, email: string, password: string)
    requires Get(data, "email", Null) == Text(email) && email != ""
    requires Get(data, "password", Null) == Text(password) && password != ""
    ensures CheckCredentials(data) == None
  {
  }

  // ---------------------------------------------------------------------------------------------
  // The profile text (`create_user_profile`)
  // ---------------------------------------------------------------------------------------------

  function DigitChar(d: nat): char
    requires d < 10
  {
    "0123456789"[d]
  }

  function Digits(n: nat): string
    decreases n
  {
    if n < 10 then [DigitChar(n)] else Digits(n / 10) + [DigitChar(n % 10)]
  }

  /** `str(v)`, as an f-string renders a value. */
  function Render(v: Value): string {
    match v
    case Null => "None"
    case Bool(b) => if b then "True" else "False"
    case Int(i) => if i < 0 then "-" + Digits(-i) else Digits(i)
    case Text(s) => s
  }

  /** `create_user_profile`: career goals, interests and skills, in that order, each separated by one
      space; a missing column reads as the empty string. */
  function UserProfile(row: Record): string {
    Render(Get(row, "career_goals", Text(""))) + " " + Render(Get(row, "interests", Text(""))) + " "
      + Render(Get(row, "skills", Text("")))
  }

  /** When the three parts hold no space, splitting the profile at spaces gives them back in order. */
  lemma ProfileParts(row: Record)
    requires ' ' !in Render(Get(row, "career_goals", Text("")))
    requires ' ' !in Render(Get(row, "interests", Text("")))
    requires ' ' !in Render(Get(row, "skills", Text("")))
    ensures Split(UserProfile(row), ' ') == [Render(Get(row, "career_goals", Text(""))),
                                              Render(Get(row, "interests", Text(""))),
                                              Render(Get(row, "skills", Text("")))]
  {
    SplitThree(Render(Get(row, "career_goals", Text(""))), Render(Get(row, "interests", Text(""))),
               Render(Get(row, "skills", Text(""))));
  }

  /** Three space-free parts joined by single spaces split back into those parts. */
  lemma SplitThree(a: string, b: string, c: string)
    requires ' ' !in a && ' ' !in b && ' ' !in c
    ensures Split(a + " " + b + " " + c, ' ') == [a, b, c]
  {
    var parts := [a, b, c];
    assert parts[1..][1..] == [c];
    assert Join(parts[1..], " ") == b + " " + c;
    assert Join(parts, " ") == a + " " + b + " " + c;
    SplitJoin(parts, ' ');
  }

  /** A row with none of the three columns yields two spaces. */
  lemma EmptyProfile()
    ensures UserProfile(map[]) == "  "
  {
  }

  /** A new user's row holds NULL in the three columns, which render as "None". */
  lemma NullProfile(row: Record)
    requires "career_goals" in row && "interests" in row && "skills" in row
    requires row["career_goals"] == Null && row["interests"] == Null && row["skills"] == Null
    ensures UserProfile(row) == "None None None"
  {
  }

  // ---------------------------------------------------------------------------------------------
  // The profile update (`save_profile`)
  // ---------------------------------------------------------------------------------------------

  /** The columns a profile update may set, in the order the query lists them. */
  const ProfileFields: seq<string> :=
    ["career_goals", "skills", "interests", "name", "age", "job_role", "interested_courses", "liked_courses"]

  /** The columns the recommendations are computed from. */
  predicate Regenerates(data: Record) {
    "career_goals" in data || "skills" in data || "interests" in data
  }

  /** `[f for f in fields if f in data]`: the profile columns the request names, in column order. */
  function FieldsToUpdate(data: Record): (r: seq<string>)
    ensures forall k :: 0 <= k < |r| ==> r[k] in data && r[k] in ProfileFields
    ensures forall j :: 0 <= j < |ProfileFields| && ProfileFields[j] in data ==> ProfileFields[j] in r
    ensures forall k :: 0 <= k < |r| ==> '%' !in r[k]
  {
    ProfileFieldsPlain();
    Select(ProfileFields, f => f in data)
  }

  /** The columns are set in the order the column list gives them. */
  lemma FieldsInColumnOrder(data: Record)
    ensures IsSubsequence(FieldsToUpdate(data), ProfileFields)
  {
    SelectSubsequence(ProfileFields, f => f in data);
  }

  /** `", ".join([f"{field} = %s" for field in fields])`. */
  function SetClause(fields: seq<string>): string {
    Join(seq(|fields|, k requires 0 <= k < |fields| => fields[k] + " = %s"), ", ")
  }

  /** The number of `%s` placeholders in a query. */
  function Placeholders(s: string): nat
    decreases |s|
  {
    if |s| < 2 then 0 else (if s[0] == '%' && s[1] == 's' then 1 else 0) + Placeholders(s[1..])
  }

  /** A text without '%' holds no placeholder. */
  lemma {:induction false} NoPlaceholders(s: string)
    requires '%' !in s
    ensures Placeholders(s) == 0
  {
    if |s| >= 2 { NoPlaceholders(s[1..]); }
  }

  /** Placeholders add up over a concatenation that does not cut between '%' and 's'. */
  lemma {:induction false} PlaceholdersAppend(a: string, b: string)
    requires a == [] || a[|a| - 1] != '%'
    ensures Placeholders(a + b) == Placeholders(a) + Placeholders(b)
  {
    var ab := a + b;
    if a == [] {
      assert ab == b;
    } else if |a| == 1 {
      assert ab[0] == a[0] != '%';
      assert ab[1..] == b;
    } else {
      assert ab[0] == a[0] && ab[1] == a[1];
      assert ab[1..] == a[1..] + b;
      PlaceholdersAppend(a[1..], b);
    }
  }

  /** A text ending in its only placeholder. */
  lemma OnePlaceholder(prefix: string)
    requires '%' !in prefix
    ensures Placeholders(prefix + "%s") == 1
  {
    NoPlaceholders(prefix);
    PlaceholdersAppend(prefix, "%s");
    assert "%s"[1..] == "s";
  }

  /** No profile column name holds a '%'. */
  lemma ProfileFieldsPlain()
    ensures forall f :: f in ProfileFields ==> '%' !in f
  {
  }

  /** One placeholder per column in the `SET` clause. */
  lemma {:induction false} SetClausePlaceholders(fields: seq<string>)
    requires forall k :: 0 <= k < |fields| ==> '%' !in fields[k]
    ensures Placeholders(SetClause(fields)) == |fields|
    ensures |fields| > 0 ==> SetClause(fields)[|SetClause(fields)| - 1] == 's'
  {
    var pieces := seq(|fields|, k requires 0 <= k < |fields| => fields[k] + " = %s");
    if |fields| > 0 {
      var head := fields[0] + " = %s";
      assert head == (fields[0] + " = ") + "%s";
      OnePlaceholder(fields[0] + " = ");
      SetClausePlaceholders(fields[1..]);
      var tail := seq(|fields[1..]|, k requires 0 <= k < |fields[1..]| => fields[1..][k] + " = %s");
      assert pieces[1..] == tail;
      if |fields| == 1 {
        assert SetClause(fields) == head;
      } else {
        assert SetClause(fields) == head + ", " + SetClause(fields[1..]);
        PlaceholdersAppend(head, ", ");
        PlaceholdersAppend(head + ", ", SetClause(fields[1..]));
      }
    }
  }

  /** A plain text, a part ending in 's', a plain text and one last placeholder: the placeholders of
      the middle part and one more. */
  lemma {:induction false} PlaceholdersFramed(front: string, middle: string, back: string)
    requires '%' !in front && '%' !in back
    requires middle != [] && middle[|middle| - 1] == 's'
    ensures Placeholders(front + middle + back + "%s") == Placeholders(middle) + 1
  {
    NoPlaceholders(front);
    OnePlaceholder(back);
    PlaceholdersAppend(front, middle);
    var fm := front + middle;
    assert fm[|fm| - 1] == 's';
    PlaceholdersAppend(fm, back + "%s");
    assert fm + (back + "%s") == front + middle + back + "%s";
  }

  /** The text before the `SET` clause. */
  const QueryHead: string := "UPDATE user_data SET "
  /** The text after the `SET` clause, up to the user id's placeholder. */
  const QueryWhere: string := " WHERE user_id = "

  lemma QueryTextPlain()
    ensures '%' !in QueryHead && '%' !in QueryWhere
  {
  }

  /** The `UPDATE` statement for the given columns: one placeholder per column, then one for the
      user id. */
  function UpdateQuery(fields: seq<string>): (r: string)
    requires |fields| > 0 && forall k :: 0 <= k < |fields| ==> '%' !in fields[k]
    ensures Placeholders(r) == |fields| + 1
  {
    SetClausePlaceholders(fields);
    QueryTextPlain();
    PlaceholdersFramed(QueryHead, SetClause(fields), QueryWhere);
    QueryHead + SetClause(fields) + QueryWhere + "%s"
  }

  /** `[data[field] for field in fields]`. */
  function ColumnValues(data: Record, fields: seq<string>): (r: seq<Value>)
    requires forall k :: 0 <= k < |fields| ==> fields[k] in data
    ensures |r| == |fields| && forall k :: 0 <= k < |fields| ==> r[k] == data[fields[k]]
  {
    seq(|fields|, k requires 0 <= k < |fields| => data[fields[k]])
  }

  /** A prepared update: the statement, its parameters and whether recommendations are recomputed. */
  datatype Update = Update(query: string, values: seq<Value>, regenerate: bool)

  const NoFieldsToUpdate: Reply := Reply(400, "message", "No fields to update")

  /** `save_profile` up to the database call: refuse a request naming no profile column; otherwise
      build the statement, its parameters (the request's values in column order, then the user id) and
      the regeneration flag. */
  method BuildProfileUpdate(data: Record, userId: int) returns (r: Result<Update, Reply>)
    ensures r.Failure? <==> FieldsToUpdate(data) == []
    ensures r.Failure? ==> r.error == NoFieldsToUpdate
    ensures r.Success? ==>
              var fields, u := FieldsToUpdate(data), r.value;
              && u.query == UpdateQuery(fields)
              && Placeholders(u.query) == |u.values|
              && u.values == ColumnValues(data, fields) + [Int(userId)]
              && (u.regenerate <==> Regenerates(data))
  {
    var fields := FieldsToUpdate(data);
    if |fields| == 0 {
      return Failure(NoFieldsToUpdate);
    }
    var query := UpdateQuery(fields);
    var values := ColumnValues(data, fields) + [Int(userId)];
    var regenerate := Regenerates(data);
    r := Success(Update(query, values, regenerate));
  }

  /** The row after the update: the profile columns the request names take the request's values. */
  function ApplyUpdate(row: Record, data: Record): Record {
    var fields := FieldsToUpdate(data);
    row + map f | f in fields :: data[f]
  }

  /** A column the request does not name keeps its value. */
  lemma UpdateLeaves(row: Record, data: Record, column: string)
    requires column !in data || column !in ProfileFields
    ensures Get(ApplyUpdate(row, data), column, Text("")) == Get(row, column, Text(""))
  {
    assert column !in FieldsToUpdate(data);
  }

  /** The profile text depends on the three profile columns only. */
  lemma SameProfileParts(r1: Record, r2: Record)
    requires Get(r1, "career_goals", Text("")) == Get(r2, "career_goals", Text(""))
    requires Get(r1, "interests", Text("")) == Get(r2, "interests", Text(""))
    requires Get(r1, "skills", Text("")) == Get(r2, "skills", Text(""))
    ensures UserProfile(r1) == UserProfile(r2)
  {
  }

  /** Skipping the recomputation loses nothing: an update naming none of the three profile columns
      leaves the profile text unchanged. */
  lemma SkippedRegenerationKeepsProfile(row: Record, data: Record)
    requires !Regenerates(data)
    ensures UserProfile(ApplyUpdate(row, data)) == UserProfile(row)
  {
    UpdateLeaves(row, data, "career_goals");
    UpdateLeaves(row, data, "interests");
    UpdateLeaves(row, data, "skills");
    SameProfileParts(ApplyUpdate(row, data), row);
  }

  /** A profile column the request names takes the request's value. */
  lemma UpdateSets(row: Record, data: Record, column: string)
    requires column in data && column in ProfileFields
    ensures Get(ApplyUpdate(row, data), column, Text("")) == data[column]
  {
    var j :| 0 <= j < |ProfileFields| && ProfileFields[j] == column;
    assert column in FieldsToUpdate(data);
  }

  /** Profiles that share their first two parts differ when their skills render differently. */
  lemma DifferentSkills(r1: Record, r2: Record)
    requires Get(r1, "career_goals", Text("")) == Get(r2, "career_goals", Text(""))
    requires Get(r1, "interests", Text("")) == Get(r2, "interests", Text(""))
    requires Render(Get(r1, "skills", Text(""))) != Render(Get(r2, "skills", Text("")))
    ensures UserProfile(r1) != UserProfile(r2)
  {
    var p := Render(Get(r1, "career_goals", Text(""))) + " " + Render(Get(r1, "interests", Text(""))) + " ";
    var s1, s2 := Render(Get(r1, "skills", Text(""))), Render(Get(r2, "skills", Text("")));
    assert UserProfile(r1) == p + s1 && UserProfile(r2) == p + s2;
    assert UserProfile(r1)[|p|..] == s1 && UserProfile(r2)[|p|..] == s2;
  }

  /** So the recomputation is not wasted: an update that gives `skills` a value rendering differently,
      and leaves the other two profile columns alone, changes the profile text. */
  lemma SkillsUpdateChangesProfile(row: Record, data: Record)
    requires "career_goals" !in data && "interests" !in data
    requires "skills" in data && Render(data["skills"]) != Render(Get(row, "skills", Text("")))
    ensures UserProfile(ApplyUpdate(row, data)) != UserProfile(row)
  {
    UpdateLeaves(row, data, "career_goals");
    UpdateLeaves(row, data, "interests");
    assert ProfileFields[1] == "skills";
    UpdateSets(row, data, "skills");
    DifferentSkills(ApplyUpdate(row, data), row);
  }

  // ---------------------------------------------------------------------------------------------
  // The course lookup (`get_course_details`)
  // ---------------------------------------------------------------------------------------------

  /** Python's `c.get("id") == course_id`; `True` and `False` compare equal to 1 and 0. */
  predicate HasId(course: Record, id: int) {
    match Get(course, "id", Null)
    case Int(i) => i == id
    case Bool(b) => (if b then 1 else 0) == id
    case _ => false
  }

  /** `next((c for c in course_data if c.get("id") == course_id), None)`, as a position. */
  function FirstWithId(courses: seq<Record>, id: int): (r: Option<nat>)
    ensures r.Some? ==> r.value < |courses| && HasId(courses[r.value], id)
    ensures r.Some? ==> forall j :: 0 <= j < r.value ==> !HasId(courses[j], id)
    ensures r.None? ==> forall j :: 0 <= j < |courses| ==> !HasId(courses[j], id)
  {
    if courses == [] then None
    else if HasId(courses[0], id) then Some(0)
    else
      match FirstWithId(courses[1..], id)
      case None => None
      case Some(k) => Some(k + 1)
  }

  const CourseNotFound: Reply := Reply(404, "error", "Course not found")

  /** `get_course_details`: the first course carrying the id, else 404. */
  function CourseDetails(courses: seq<Record>, id: int): (r: Result<Record, Reply>)
    ensures r.Success? ==> r.value in courses && HasId(r.value, id)
    ensures r.Failure? <==> forall j :: 0 <= j < |courses| ==> !HasId(courses[j], id)
    ensures r.Failure? ==> r.error == CourseNotFound
  {
    match FirstWithId(courses, id)
    case None => Failure(CourseNotFound)
    case Some(k) => Success(courses[k])
  }

  /** Among several courses with the same id, the earliest is returned. */
  lemma EarliestCourseWins(courses: seq<Record>, id: int, k: nat)
    requires k < |courses| && HasId(courses[k], id)
    requires forall j :: 0 <= j < k ==> !HasId(courses[j], id)
    ensures CourseDetails(courses, id) == Success(courses[k])
  {
    var r := FirstWithId(courses, id);
    assert r.Some?;
    if r.value < k {
    } else if r.value > k {
    }
  }
}
