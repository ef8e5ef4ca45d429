/** The form resolver `zodResolverWithI18n`. It takes the outcome of a schema
    check: either the parsed values, or the ordered list of issues the schema
    found. Failed checks become a map from field path to error. The first
    issue for a path wins, and messages marked `validation:` are translated.
    The schema engine and the translator `i18n.t` are outside the model. The
    parse outcome is an input value, and the translator is a function
    parameter whose calls the resolver reports in order. */
module ZodResolver {
  import opened JsValues

  /** One step of an issue's path: an object key or an array index. */
  datatype PathSegment = Key(name: string) | Index(n: nat)

  /** A schema issue: where, what kind, the raw message, and the bound of a
      size check when the issue carries one. */
  datatype ZodIssue = ZodIssue(
    path: seq<PathSegment>,
    code: string,
    message: string,
    minimum: Optional<real>,
    maximum: Optional<real>
  )

  /** What `schema.safeParseAsync` settles to. */
  datatype SafeParseResult<T> = ParseSuccess(data: T) | ParseFailure(issues: seq<ZodIssue>)

  /** One entry of the error map: `{ type, message }`. */
  datatype FieldError = FieldError(errorType: string, message: string)

  /** The options object handed to the translator. */
  datatype TranslateOptions = TranslateOptions(ns: string, min: Optional<real>, max: Optional<real>)

  /** One call of the translator, as it was made. */
  datatype TranslateCall = TranslateCall(key: string, options: TranslateOptions)

  /** `values` of the resolver result: the parsed data, or `{}`. */
  datatype ResolverValues<T> = Parsed(data: T) | EmptyObject

  datatype ResolverResult<T> = ResolverResult(values: ResolverValues<T>, errors: map<string, FieldError>)

  /** The marker of a message that is a translation key. */
  const ValidationPrefix: string := "validation:"

  /** The translation namespace of validation messages. */
  const ValidationNamespace: string := "validation"

  /** The properties every object literal inherits from `Object.prototype`.
      The error record starts as `{}`, so looking one of these names up in it
      finds the inherited member, which is truthy. */
  const InheritedKeys: set<string> := {
    "constructor", "hasOwnProperty", "isPrototypeOf", "propertyIsEnumerable",
    "toString", "valueOf", "toLocaleString", "__proto__",
    "__defineGetter__", "__defineSetter__", "__lookupGetter__", "__lookupSetter__"
  }

  /** A key the resolver can fill: `path` is truthy and `errors[path]` is not
      already found on the empty record, whose lookups find the names in
      `inherited`. The specification below is stated for any such set; the
      resolver's record inherits `InheritedKeys`. */
  predicate IsErrorKey(path: string, inherited: set<string>)
  {
    |path| > 0 && path !in inherited
  }

  /** No inherited name is numeric or dotted, so an array index and a
      nested path always give a key the resolver can fill. */
  lemma IndexAndNestedKeysFillable(path: string)
    ensures |path| > 0 && (forall c :: c in path ==> '0' <= c <= '9') ==> IsErrorKey(path, InheritedKeys)
    ensures '.' in path ==> IsErrorKey(path, InheritedKeys)
  {
    if |path| > 0 && path in InheritedKeys {
      InheritedKeyShape(path);
      assert path[0] in path;
    }
  }

  /** Every inherited member's name is spelled without a dot and starts
      with a letter or an underscore. */
  lemma InheritedKeyShape(path: string)
    requires path in InheritedKeys
    ensures '.' !in path
    ensures |path| > 0 && ('a' <= path[0] <= 'z' || path[0] == '_')
  {
  }

  // ---------------------------------------------------------------------
  // Path keys: `issue.path.join('.')`
  // ---------------------------------------------------------------------

  function DigitChar(d: nat): (c: char)
    requires d < 10
    ensures '0' <= c <= '9'
  {
    "0123456789"[d]
  }

  function DigitValue(c: char): (d: nat)
    requires '0' <= c <= '9'
    ensures d < 10
  {
    (c as int - '0' as int) as nat
  }

  /** `s` is made of decimal digits only. */
  predicate AllDigits(s: string)
  {
    forall j :: 0 <= j < |s| ==> '0' <= s[j] <= '9'
  }

  /** The decimal text JavaScript gives an array index. */
  function NatToDecimal(n: nat): (s: string)
    ensures |s| > 0
    decreases n
  {
    if n < 10 then [DigitChar(n)] else NatToDecimal(n / 10) + [DigitChar(n % 10)]
  }

  /** The text of an index is made of digits only: no dot, so it is never
      split when read back as a key. */
  lemma {:induction false} NatToDecimalDigits(n: nat)
    ensures AllDigits(NatToDecimal(n))
    decreases n
  {
    if n >= 10 {
      NatToDecimalDigits(n / 10);
    }
  }

  /** The text of an index has no leading zero, as `String(n)` writes it:
      `5` is never written `05`. */
  lemma {:induction false} NatToDecimalCanonical(n: nat)
    ensures n >= 10 ==> NatToDecimal(n)[0] != '0'
    ensures NatToDecimal(n) == "0" <==> n == 0
    decreases n
  {
    if n >= 10 {
      NatToDecimalCanonical(n / 10);
      assert NatToDecimal(n)[0] == NatToDecimal(n / 10)[0];
      if n / 10 < 10 {
        assert NatToDecimal(n / 10)[0] == "0123456789"[n / 10];
      }
      assert |NatToDecimal(n)| > 1;
    }
  }

  /** The number a string of decimal digits denotes. */
  function DecimalValue(s: string): nat
    requires AllDigits(s)
  {
    if |s| == 0 then 0 else DecimalValue(s[..|s| - 1]) * 10 + DigitValue(s[|s| - 1])
  }

  /** Rendering an index loses nothing: the text reads back as the index. */
  lemma {:induction false} DecimalRoundTrip(n: nat)
    ensures AllDigits(NatToDecimal(n)) && DecimalValue(NatToDecimal(n)) == n
    decreases n
  {
    var s := NatToDecimal(n);
    NatToDecimalDigits(n);
    if n < 10 {
      assert DecimalValue(s) == DecimalValue([]) * 10 + DigitValue(s[0]);
    } else {
      var prefix := NatToDecimal(n / 10);
      assert s[..|s| - 1] == prefix;
      DecimalRoundTrip(n / 10);
    }
  }

  function SegmentText(seg: PathSegment): (s: string)
    ensures seg.Index? ==> |s| > 0
  {
    match seg
    case Key(name) => name
    case Index(n) => NatToDecimal(n)
  }

  /** `path.join('.')`. */
  function JoinPath(path: seq<PathSegment>): string
  {
    if |path| == 0 then ""
    else if |path| == 1 then SegmentText(path[0])
    else SegmentText(path[0]) + "." + JoinPath(path[1..])
  }

  /** The key is empty exactly for the empty path and for the path made of
      one empty key: issues with those paths are dropped. */
  lemma EmptyKeyIff(path: seq<PathSegment>)
    ensures JoinPath(path) == "" <==> path == [] || path == [Key("")]
  {
    if |path| == 1 && path[0].Key? && path[0].name == "" {
      assert path == [Key("")];
    } else if |path| > 1 {
      assert |JoinPath(path)| > 0;
    }
  }

  /** A nested path always gives a dotted key. */
  lemma NestedPathDotted(path: seq<PathSegment>)
    requires |path| > 1
    ensures '.' in JoinPath(path)
  {
    var head := SegmentText(path[0]);
    assert JoinPath(path)[|head|] == '.';
  }

  /** Joining is not injective: a key with a dot in it and the nested path
      it spells give the same error key, and so do an index and its text. */
  lemma JoinPathCollisions()
    ensures JoinPath([Key("user.email")]) == JoinPath([Key("user"), Key("email")]) == "user.email"
    ensures JoinPath([Key("items"), Index(0)]) == JoinPath([Key("items"), Key("0")]) == "items.0"
  {
  }

  // ---------------------------------------------------------------------
  // Message resolution
  // ---------------------------------------------------------------------

  /** `message.startsWith('validation:')`. */
  predicate HasValidationPrefix(message: string)
  {
    |ValidationPrefix| <= |message| && message[..|ValidationPrefix|] == ValidationPrefix
  }

  /** A message is marked exactly when it is the marker followed by some
      rest, and that rest is what is left once the marker is sliced off. */
  lemma MarkedIff(message: string, rest: string)
    ensures HasValidationPrefix(ValidationPrefix + rest)
    ensures (ValidationPrefix + rest)[|ValidationPrefix|..] == rest
    ensures HasValidationPrefix(message) ==> message == ValidationPrefix + message[|ValidationPrefix|..]
  {
    assert (ValidationPrefix + rest)[..|ValidationPrefix|] == ValidationPrefix;
  }

  /** The translator call a marked issue makes: the message without its
      marker as key, the validation namespace, and the issue's own bounds. */
  function CallFor(issue: ZodIssue): (c: TranslateCall)
    requires HasValidationPrefix(issue.message)
    ensures ValidationPrefix + c.key == issue.message
    ensures c.options == TranslateOptions(ValidationNamespace, issue.minimum, issue.maximum)
  {
    TranslateCall(issue.message[|ValidationPrefix|..],
                  TranslateOptions(ValidationNamespace, issue.minimum, issue.maximum))
  }

  /** The error entry an issue produces when it is the first for its key. */
  function EntryFor(issue: ZodIssue, t: (string, TranslateOptions) -> string): (e: FieldError)
    ensures e.errorType == issue.code
    ensures !HasValidationPrefix(issue.message) ==> e.message == issue.message
    ensures HasValidationPrefix(issue.message) ==> e.message == t(CallFor(issue).key, CallFor(issue).options)
  {
    if HasValidationPrefix(issue.message) then
      var c := CallFor(issue);
      FieldError(issue.code, t(c.key, c.options))
    else
      FieldError(issue.code, issue.message)
  }

  // ---------------------------------------------------------------------
  // The specification of the issue loop
  // ---------------------------------------------------------------------

  /** Issue `j` is the first one whose path gives its key, and that key is
      one the resolver can fill. */
  ghost predicate IsFirstForKey(issues: seq<ZodIssue>, j: int, inherited: set<string>)
    requires 0 <= j < |issues|
  {
    && IsErrorKey(JoinPath(issues[j].path), inherited)
    && forall i :: 0 <= i < j ==> JoinPath(issues[i].path) != JoinPath(issues[j].path)
  }

  /** The fillable keys the issues' paths give. */
  ghost function PathKeys(issues: seq<ZodIssue>, inherited: set<string>): set<string>
  {
    set j | 0 <= j < |issues| && IsErrorKey(JoinPath(issues[j].path), inherited) :: JoinPath(issues[j].path)
  }

  /** The error map after the loop has seen `issues`, one issue at a time:
      an issue adds its entry when its key is fillable and not yet taken. */
  function FoldErrors(issues: seq<ZodIssue>, t: (string, TranslateOptions) -> string, inherited: set<string>): (errors: map<string, FieldError>)
    ensures |errors| <= |issues|
    decreases |issues|
  {
    if |issues| == 0 then map[]
    else
      var errors := FoldErrors(issues[..|issues| - 1], t, inherited);
      var issue := issues[|issues| - 1];
      var path := JoinPath(issue.path);
      if IsErrorKey(path, inherited) && path !in errors then errors[path := EntryFor(issue, t)] else errors
  }

  /** Being first for a key in a prefix is being first for it in the whole. */
  lemma FirstInPrefix(issues: seq<ZodIssue>, k: nat, j: nat, inherited: set<string>)
    requires j < k <= |issues|
    ensures IsFirstForKey(issues[..k], j, inherited) <==> IsFirstForKey(issues, j, inherited)
  {
    assert forall i :: 0 <= i <= j ==> issues[..k][i] == issues[i];
  }

  /** The keys of all issues are those of all but the last, plus the last
      issue's key when it is fillable. */
  lemma PathKeysSnoc(issues: seq<ZodIssue>, inherited: set<string>)
    requires |issues| > 0
    ensures var path := JoinPath(issues[|issues| - 1].path);
      PathKeys(issues, inherited) == PathKeys(issues[..|issues| - 1], inherited) + (if IsErrorKey(path, inherited) then {path} else {})
  {
    var n := |issues| - 1;
    var before := issues[..n];
    var path := JoinPath(issues[n].path);
    forall key | key in PathKeys(issues, inherited) ensures key in PathKeys(before, inherited) || (IsErrorKey(path, inherited) && key == path) {
      PathKeyFromPrefixOrLast(issues, key, inherited);
    }
    forall key | key in PathKeys(before, inherited) ensures key in PathKeys(issues, inherited) {
      PathKeyKept(issues, n, key, inherited);
    }
    if IsErrorKey(path, inherited) { assert JoinPath(issues[n].path) in PathKeys(issues, inherited); }
  }

  /** A key of all the issues is a key of all but the last, or the last
      issue's own. */
  lemma PathKeyFromPrefixOrLast(issues: seq<ZodIssue>, key: string, inherited: set<string>)
    requires |issues| > 0 && key in PathKeys(issues, inherited)
    ensures var n := |issues| - 1;
      key in PathKeys(issues[..n], inherited) || (IsErrorKey(JoinPath(issues[n].path), inherited) && key == JoinPath(issues[n].path))
  {
    var n := |issues| - 1;
    var j :| 0 <= j < |issues| && IsErrorKey(JoinPath(issues[j].path), inherited) && JoinPath(issues[j].path) == key;
    if j < n {
      assert issues[..n][j] == issues[j];
      assert IsErrorKey(JoinPath(issues[..n][j].path), inherited) && JoinPath(issues[..n][j].path) == key;
    }
  }

  /** A key of a prefix of the issues stays a key of them all. */
  lemma PathKeyKept(issues: seq<ZodIssue>, k: nat, key: string, inherited: set<string>)
    requires k <= |issues| && key in PathKeys(issues[..k], inherited)
    ensures key in PathKeys(issues, inherited)
  {
    var j :| 0 <= j < k && IsErrorKey(JoinPath(issues[..k][j].path), inherited) && JoinPath(issues[..k][j].path) == key;
    assert issues[..k][j] == issues[j];
  }

  /** The error map holds exactly the fillable keys of the issues' paths:
      neither the empty key nor an inherited member's name ever appears. */
  lemma {:induction false} FoldErrorsKeys(issues: seq<ZodIssue>, t: (string, TranslateOptions) -> string, inherited: set<string>)
    ensures FoldErrors(issues, t, inherited).Keys == PathKeys(issues, inherited)
    decreases |issues|
  {
    if |issues| > 0 {
      FoldErrorsKeys(issues[..|issues| - 1], t, inherited);
      PathKeysSnoc(issues, inherited);
    }
  }

  /** The last issue is the first for its key exactly when that key is
      fillable and not yet in the map built from the issues before it. */
  lemma LastIsFirstIff(issues: seq<ZodIssue>, t: (string, TranslateOptions) -> string, inherited: set<string>)
    requires |issues| > 0
    ensures var n := |issues| - 1; var path := JoinPath(issues[n].path);
      IsFirstForKey(issues, n, inherited) <==> IsErrorKey(path, inherited) && path !in FoldErrors(issues[..n], t, inherited)
  {
    var n := |issues| - 1;
    var before := issues[..n];
    var path := JoinPath(issues[n].path);
    FoldErrorsKeys(before, t, inherited);
    if path in FoldErrors(before, t, inherited) {
      var i :| 0 <= i < n && IsErrorKey(JoinPath(before[i].path), inherited) && JoinPath(before[i].path) == path;
      assert before[i] == issues[i];
    } else if IsErrorKey(path, inherited) {
      forall i | 0 <= i < n ensures JoinPath(issues[i].path) != path {
        assert before[i] == issues[i];
      }
    }
  }

  /** First error wins: each key holds the entry of the first issue with
      that key. */
  lemma {:induction false} FoldErrorsFirstWins(issues: seq<ZodIssue>, t: (string, TranslateOptions) -> string, inherited: set<string>)
    ensures forall j :: 0 <= j < |issues| && IsFirstForKey(issues, j, inherited) ==>
      JoinPath(issues[j].path) in FoldErrors(issues, t, inherited) &&
      FoldErrors(issues, t, inherited)[JoinPath(issues[j].path)] == EntryFor(issues[j], t)
    decreases |issues|
  {
    if |issues| > 0 {
      var n := |issues| - 1;
      var before := issues[..n];
      var path := JoinPath(issues[n].path);
      FoldErrorsFirstWins(before, t, inherited);
      LastIsFirstIff(issues, t, inherited);
      forall j | 0 <= j < |issues| && IsFirstForKey(issues, j, inherited)
        ensures JoinPath(issues[j].path) in FoldErrors(issues, t, inherited)
        ensures FoldErrors(issues, t, inherited)[JoinPath(issues[j].path)] == EntryFor(issues[j], t)
      {
        if j < n {
          FirstInPrefix(issues, n, j, inherited);
          assert before[j] == issues[j];
        }
      }
    }
  }

  /** Every key of the error map is the key of some issue that is the first
      for it; with `FoldErrorsFirstWins`, its entry is that issue's entry, so
      its type is that issue's code. */
  lemma {:induction false} FoldErrorsOrigin(issues: seq<ZodIssue>, t: (string, TranslateOptions) -> string, inherited: set<string>)
    ensures forall key :: key in FoldErrors(issues, t, inherited) ==>
      exists j :: 0 <= j < |issues| && IsFirstForKey(issues, j, inherited) && JoinPath(issues[j].path) == key
    decreases |issues|
  {
    if |issues| > 0 {
      var n := |issues| - 1;
      var before := issues[..n];
      FoldErrorsOrigin(before, t, inherited);
      LastIsFirstIff(issues, t, inherited);
      forall key | key in FoldErrors(issues, t, inherited)
        ensures exists j :: 0 <= j < |issues| && IsFirstForKey(issues, j, inherited) && JoinPath(issues[j].path) == key
      {
        if key in FoldErrors(before, t, inherited) {
          var i :| 0 <= i < n && IsFirstForKey(before, i, inherited) && JoinPath(before[i].path) == key;
          FirstInPrefix(issues, n, i, inherited);
          assert before[i] == issues[i];
        } else {
          assert IsFirstForKey(issues, n, inherited) && JoinPath(issues[n].path) == key;
        }
      }
    }
  }

  /** Issue `j` is the first for its key and its message carries the
      marker, so the resolver translates it. */
  ghost predicate IsTranslated(issues: seq<ZodIssue>, j: int, inherited: set<string>)
    requires 0 <= j < |issues|
  {
    IsFirstForKey(issues, j, inherited) && HasValidationPrefix(issues[j].message)
  }

  /** Being translated in a prefix is being translated in the whole. */
  lemma TranslatedInPrefix(issues: seq<ZodIssue>, k: nat, j: nat, inherited: set<string>)
    requires j < k <= |issues|
    ensures IsTranslated(issues[..k], j, inherited) <==> IsTranslated(issues, j, inherited)
  {
    FirstInPrefix(issues, k, j, inherited);
    assert issues[..k][j] == issues[j];
  }

  // ---------------------------------------------------------------------
  // Picking by index
  // ---------------------------------------------------------------------

  /** The indices below `k` at which `p` holds, in increasing order. */
  ghost function IndicesWhere(p: nat -> bool, k: nat): (idx: seq<nat>)
    ensures forall i :: 0 <= i < |idx| ==> idx[i] < k && p(idx[i])
    decreases k
  {
    if k == 0 then [] else IndicesWhere(p, k - 1) + (if p(k - 1) then [k - 1] else [])
  }

  /** The indices are listed once each, in increasing order, and none at
      which `p` holds is missing. */
  lemma {:induction false} IndicesWhereComplete(p: nat -> bool, k: nat)
    ensures var idx := IndicesWhere(p, k);
      && (forall i, i' :: 0 <= i < i' < |idx| ==> idx[i] < idx[i'])
      && (forall j :: 0 <= j < k && p(j) ==> j in idx)
    decreases k
  {
    if k > 0 {
      var idx0 := IndicesWhere(p, k - 1);
      IndicesWhereComplete(p, k - 1);
      var idx := IndicesWhere(p, k);
      assert idx == idx0 + (if p(k - 1) then [k - 1] else []);
      forall i, i' | 0 <= i < i' < |idx| ensures idx[i] < idx[i'] {
        if i' < |idx0| {
          assert idx[i] == idx0[i] && idx[i'] == idx0[i'];
        } else {
          assert idx[i] == idx0[i] < k - 1;
        }
      }
      forall j | 0 <= j < k && p(j) ensures j in idx {
        if j < k - 1 {
          assert j in idx0;
        }
      }
    }
  }

  /** `f` at each index below `k` at which `p` holds, in increasing order of
      index. */
  ghost function Picks<Y>(p: nat -> bool, f: nat --> Y, k: nat): (ys: seq<Y>)
    requires forall j: nat :: j < k && p(j) ==> f.requires(j)
    ensures |ys| <= k
    decreases k
  {
    if k == 0 then [] else Picks(p, f, k - 1) + (if p(k - 1) then [f(k - 1)] else [])
  }

  /** Picking is `f` over the indices where `p` holds, one for one. */
  lemma {:induction false} PicksAtIndices<Y>(p: nat -> bool, f: nat --> Y, k: nat)
    requires forall j: nat :: j < k && p(j) ==> f.requires(j)
    ensures var idx := IndicesWhere(p, k);
      && |Picks(p, f, k)| == |idx|
      && forall i :: 0 <= i < |idx| ==> Picks(p, f, k)[i] == f(idx[i])
    decreases k
  {
    if k > 0 {
      PicksAtIndices(p, f, k - 1);
      var idx0 := IndicesWhere(p, k - 1);
      var idx := IndicesWhere(p, k);
      assert idx == idx0 + (if p(k - 1) then [k - 1] else []);
      forall i | 0 <= i < |idx| ensures Picks(p, f, k)[i] == f(idx[i]) {
        if i < |idx0| {
          assert idx[i] == idx0[i];
        }
      }
    }
  }

  /** Picking below `m` begins picking below any larger `k`. */
  lemma {:induction false} PicksPrefix<Y>(p: nat -> bool, f: nat --> Y, m: nat, k: nat)
    requires m <= k
    requires forall j: nat :: j < k && p(j) ==> f.requires(j)
    ensures Picks(p, f, m) <= Picks(p, f, k)
    decreases k
  {
    if m < k {
      PicksPrefix(p, f, m, k - 1);
    }
  }

  /** Tests and values that agree below `k` pick the same sequence. */
  lemma {:induction false} PicksAgree<Y>(p: nat -> bool, f: nat --> Y, q: nat -> bool, g: nat --> Y, k: nat)
    requires forall j: nat :: j < k ==> p(j) == q(j)
    requires forall j: nat :: j < k && p(j) ==> f.requires(j) && g.requires(j) && f(j) == g(j)
    ensures Picks(p, f, k) == Picks(q, g, k)
    decreases k
  {
    if k > 0 {
      PicksAgree(p, f, q, g, k - 1);
    }
  }

  // ---------------------------------------------------------------------
  // The translator calls
  // ---------------------------------------------------------------------

  /** The resolver translates issue `j`, as a test on indices. */
  ghost function TranslatedAt(issues: seq<ZodIssue>, inherited: set<string>): nat -> bool
  {
    (j: nat) => j < |issues| && IsTranslated(issues, j, inherited)
  }

  /** The translator call of issue `j`, for an issue the resolver translates. */
  ghost function CallAt(issues: seq<ZodIssue>, inherited: set<string>): nat --> TranslateCall
  {
    (j: nat) requires j < |issues| && IsTranslated(issues, j, inherited) => CallFor(issues[j])
  }

  /** The translator calls the resolver makes for `issues`: the call of
      each issue it translates, in issue order. */
  ghost function TranslationCalls(issues: seq<ZodIssue>, inherited: set<string>): (calls: seq<TranslateCall>)
    ensures |calls| <= |issues|
  {
    Picks(TranslatedAt(issues, inherited), CallAt(issues, inherited), |issues|)
  }

  /** One more issue only appends to the call trace: the call of the last
      issue when the resolver translates it, nothing otherwise. */
  lemma LastCallAppended(issues: seq<ZodIssue>, inherited: set<string>)
    requires |issues| > 0
    ensures var n := |issues| - 1;
      TranslationCalls(issues, inherited) ==
        TranslationCalls(issues[..n], inherited) + (if IsTranslated(issues, n, inherited) then [CallFor(issues[n])] else [])
  {
    var n := |issues| - 1;
    var before := issues[..n];
    forall j: nat | j < n ensures TranslatedAt(issues, inherited)(j) == TranslatedAt(before, inherited)(j) {
      TranslatedInPrefix(issues, n, j, inherited);
    }
    forall j: nat | j < n && TranslatedAt(issues, inherited)(j)
      ensures CallAt(before, inherited).requires(j) && CallAt(issues, inherited)(j) == CallAt(before, inherited)(j)
    {
      TranslatedInPrefix(issues, n, j, inherited);
      assert before[j] == issues[j];
    }
    PicksAgree(TranslatedAt(issues, inherited), CallAt(issues, inherited), TranslatedAt(before, inherited), CallAt(before, inherited), n);
  }

  /** The calls made for a prefix of the issues begin the calls made for
      them all: the loop only ever appends to its trace. */
  lemma CallsOfPrefix(issues: seq<ZodIssue>, k: nat, inherited: set<string>)
    requires k <= |issues|
    ensures TranslationCalls(issues[..k], inherited) <= TranslationCalls(issues, inherited)
  {
    var before := issues[..k];
    forall j: nat | j < k ensures TranslatedAt(issues, inherited)(j) == TranslatedAt(before, inherited)(j) {
      TranslatedInPrefix(issues, k, j, inherited);
    }
    forall j: nat | j < k && TranslatedAt(issues, inherited)(j)
      ensures CallAt(before, inherited).requires(j) && CallAt(issues, inherited)(j) == CallAt(before, inherited)(j)
    {
      TranslatedInPrefix(issues, k, j, inherited);
      assert before[j] == issues[j];
    }
    PicksAgree(TranslatedAt(issues, inherited), CallAt(issues, inherited), TranslatedAt(before, inherited), CallAt(before, inherited), k);
    PicksPrefix(TranslatedAt(issues, inherited), CallAt(issues, inherited), k, |issues|);
  }

  /** The translator calls are exactly one call per translated issue, in
      issue order: the `i`-th call is the call of the `i`-th translated
      issue. */
  lemma TranslationCallsInOrder(issues: seq<ZodIssue>, inherited: set<string>)
    ensures var idx := IndicesWhere(TranslatedAt(issues, inherited), |issues|);
      && |TranslationCalls(issues, inherited)| == |idx|
      && forall i :: 0 <= i < |idx| ==> TranslationCalls(issues, inherited)[i] == CallFor(issues[idx[i]])
  {
    PicksAtIndices(TranslatedAt(issues, inherited), CallAt(issues, inherited), |issues|);
  }

  /** An issue the resolver translates produces its translator call. */
  lemma TranslatedIssueCalled(issues: seq<ZodIssue>, j: nat, inherited: set<string>)
    requires j < |issues| && IsTranslated(issues, j, inherited)
    ensures CallFor(issues[j]) in TranslationCalls(issues, inherited)
  {
    var idx := IndicesWhere(TranslatedAt(issues, inherited), |issues|);
    IndicesWhereComplete(TranslatedAt(issues, inherited), |issues|);
    TranslationCallsInOrder(issues, inherited);
    assert TranslatedAt(issues, inherited)(j);
    var i :| 0 <= i < |idx| && idx[i] == j;
    assert TranslationCalls(issues, inherited)[i] == CallFor(issues[j]);
  }

  /** Every issue the resolver translates produces its translator call. */
  lemma TranslatedIssuesAreCalled(issues: seq<ZodIssue>, inherited: set<string>)
    ensures forall j :: 0 <= j < |issues| && IsTranslated(issues, j, inherited) ==> CallFor(issues[j]) in TranslationCalls(issues, inherited)
  {
    forall j | 0 <= j < |issues| && IsTranslated(issues, j, inherited)
      ensures CallFor(issues[j]) in TranslationCalls(issues, inherited)
    {
      TranslatedIssueCalled(issues, j, inherited);
    }
  }

  /** The translator is called for nothing but the issues the resolver
      translates: no call for an unmarked message, for an empty or inherited
      key, or for an issue after the first of its key. */
  lemma CallsComeFromTranslatedIssues(issues: seq<ZodIssue>, inherited: set<string>)
    ensures forall c :: c in TranslationCalls(issues, inherited) ==>
      exists j :: 0 <= j < |issues| && IsTranslated(issues, j, inherited) && c == CallFor(issues[j])
  {
    var idx := IndicesWhere(TranslatedAt(issues, inherited), |issues|);
    TranslationCallsInOrder(issues, inherited);
    forall c | c in TranslationCalls(issues, inherited)
      ensures exists j :: 0 <= j < |issues| && IsTranslated(issues, j, inherited) && c == CallFor(issues[j])
    {
      var i :| 0 <= i < |TranslationCalls(issues, inherited)| && TranslationCalls(issues, inherited)[i] == c;
      assert TranslatedAt(issues, inherited)(idx[i]);
    }
  }

  /** The translator is called at most once per error key. */
  lemma {:induction false} TranslationCallsBounded(issues: seq<ZodIssue>, t: (string, TranslateOptions) -> string, inherited: set<string>)
    ensures |TranslationCalls(issues, inherited)| <= |FoldErrors(issues, t, inherited)|
    decreases |issues|
  {
    if |issues| > 0 {
      var n := |issues| - 1;
      var before := issues[..n];
      TranslationCallsBounded(before, t, inherited);
      CallsGrowWithErrors(issues, t, inherited);
    }
  }

  /** One more issue adds no more calls than entries. */
  lemma CallsGrowWithErrors(issues: seq<ZodIssue>, t: (string, TranslateOptions) -> string, inherited: set<string>)
    requires |issues| > 0
    ensures var n := |issues| - 1;
      |TranslationCalls(issues, inherited)| - |TranslationCalls(issues[..n], inherited)| <=
        |FoldErrors(issues, t, inherited)| - |FoldErrors(issues[..n], t, inherited)|
  {
    LastCallAppended(issues, inherited);
    FoldErrorsGrows(issues, t, inherited);
  }

  /** The map never shrinks, and the first issue for a key adds one entry. */
  lemma FoldErrorsGrows(issues: seq<ZodIssue>, t: (string, TranslateOptions) -> string, inherited: set<string>)
    requires |issues| > 0
    ensures var n := |issues| - 1;
      |FoldErrors(issues, t, inherited)| ==
        |FoldErrors(issues[..n], t, inherited)| + (if IsFirstForKey(issues, n, inherited) then 1 else 0)
  {
    var n := |issues| - 1;
    var path := JoinPath(issues[n].path);
    var before := FoldErrors(issues[..n], t, inherited);
    LastIsFirstIff(issues, t, inherited);
    if IsErrorKey(path, inherited) && path !in before {
      assert FoldErrors(issues, t, inherited).Keys == before.Keys + {path};
    }
  }

  /** An issue whose key is empty, inherited or already taken changes neither the map
      nor the calls made. */
  lemma LaterIssueIgnored(issues: seq<ZodIssue>, issue: ZodIssue, t: (string, TranslateOptions) -> string, inherited: set<string>)
    requires !IsErrorKey(JoinPath(issue.path), inherited) || JoinPath(issue.path) in FoldErrors(issues, t, inherited)
    ensures FoldErrors(issues + [issue], t, inherited) == FoldErrors(issues, t, inherited)
    ensures TranslationCalls(issues + [issue], inherited) == TranslationCalls(issues, inherited)
  {
    assert (issues + [issue])[..|issues|] == issues;
    LastIsFirstIff(issues + [issue], t, inherited);
    LastCallAppended(issues + [issue], inherited);
  }

  /** Without any marked message the translator is never consulted and every
      message is kept as written. */
  lemma {:induction false} NoMarkerNoTranslation(issues: seq<ZodIssue>, t: (string, TranslateOptions) -> string, inherited: set<string>)
    requires forall j :: 0 <= j < |issues| ==> !HasValidationPrefix(issues[j].message)
    ensures TranslationCalls(issues, inherited) == []
    ensures forall key :: key in FoldErrors(issues, t, inherited) ==>
      exists j :: 0 <= j < |issues| && FoldErrors(issues, t, inherited)[key] == FieldError(issues[j].code, issues[j].message)
    decreases |issues|
  {
    if |issues| > 0 {
      var n := |issues| - 1;
      var before := issues[..n];
      assert forall j :: 0 <= j < n ==> before[j] == issues[j];
      NoMarkerNoTranslation(before, t, inherited);
      LastCallAppended(issues, inherited);
      var m0 := FoldErrors(before, t, inherited);
      forall key | key in FoldErrors(issues, t, inherited)
        ensures exists j :: 0 <= j < |issues| && FoldErrors(issues, t, inherited)[key] == FieldError(issues[j].code, issues[j].message)
      {
        if key in m0 && FoldErrors(issues, t, inherited)[key] == m0[key] {
          var j :| 0 <= j < n && m0[key] == FieldError(before[j].code, before[j].message);
          assert FoldErrors(issues, t, inherited)[key] == FieldError(issues[j].code, issues[j].message);
        } else {
          assert FoldErrors(issues, t, inherited)[key] == FieldError(issues[n].code, issues[n].message);
        }
      }
    }
  }

  /** A nested path gives the dotted key `user.email`. */
  lemma NestedPathScenario(t: (string, TranslateOptions) -> string)
    ensures FoldErrors([ZodIssue([Key("user"), Key("email")], "invalid_format", "無効なメールアドレス", Undefined, Undefined)], t, InheritedKeys)
      == map["user.email" := FieldError("invalid_format", "無効なメールアドレス")]
  {
    var nested := [Key("user"), Key("email")];
    assert JoinPath(nested) == "user" + "." + JoinPath([Key("email")]) == "user.email";
    assert !HasValidationPrefix("無効なメールアドレス") by {
      assert "無効なメールアドレス"[0] != ValidationPrefix[0];
    }
    assert [ZodIssue(nested, "invalid_format", "無効なメールアドレス", Undefined, Undefined)][..0] == [];
  }

  /** Of two issues on one field, only the first is kept. */
  lemma FirstWinsScenario(t: (string, TranslateOptions) -> string)
    ensures FoldErrors([ZodIssue([Key("password")], "too_small", "8文字以上", Defined(8.0), Undefined),
                        ZodIssue([Key("password")], "invalid_format", "大文字を含む", Undefined, Undefined)], t, InheritedKeys)
      == map["password" := FieldError("too_small", "8文字以上")]
  {
    var first := ZodIssue([Key("password")], "too_small", "8文字以上", Defined(8.0), Undefined);
    var second := ZodIssue([Key("password")], "invalid_format", "大文字を含む", Undefined, Undefined);
    assert [first, second][..1] == [first];
    assert [first][..0] == [];
    assert !HasValidationPrefix(first.message) by {
      assert first.message[0] != ValidationPrefix[0];
    }
  }

  /** A marked message with a minimum of 8 calls the translator with the
      stripped key, the validation namespace, min 8 and max undefined, and
      the entry holds the translator's answer. */
  lemma MinBoundScenario(t: (string, TranslateOptions) -> string)
    ensures var marked := [ZodIssue([Key("password")], "too_small", "validation:{{min}}文字以上で入力してください", Defined(8.0), Undefined)];
      var call := TranslateCall("{{min}}文字以上で入力してください", TranslateOptions("validation", Defined(8.0), Undefined));
      && TranslationCalls(marked, InheritedKeys) == [call]
      && FoldErrors(marked, t, InheritedKeys) == map["password" := FieldError("too_small", t(call.key, call.options))]
  {
    var marked := [ZodIssue([Key("password")], "too_small", "validation:{{min}}文字以上で入力してください", Defined(8.0), Undefined)];
    assert marked[0].message[..|ValidationPrefix|] == ValidationPrefix;
    assert marked[0].message[|ValidationPrefix|..] == "{{min}}文字以上で入力してください";
    assert marked[..0] == [];
  }

  /** A marked message with a maximum of 10 calls the translator with min
      undefined and max 10, and the entry holds the translator's answer. */
  lemma MaxBoundScenario(t: (string, TranslateOptions) -> string)
    ensures var marked := [ZodIssue([Key("name")], "too_big", "validation:{{max}}文字以内で入力してください", Undefined, Defined(10.0))];
      var call := TranslateCall("{{max}}文字以内で入力してください", TranslateOptions("validation", Undefined, Defined(10.0)));
      && TranslationCalls(marked, InheritedKeys) == [call]
      && FoldErrors(marked, t, InheritedKeys) == map["name" := FieldError("too_big", t(call.key, call.options))]
  {
    var maxMessage := "validation:{{max}}文字以内で入力してください";
    assert maxMessage[..|ValidationPrefix|] == ValidationPrefix;
    assert maxMessage[|ValidationPrefix|..] == "{{max}}文字以内で入力してください";
    assert [ZodIssue([Key("name")], "too_big", maxMessage, Undefined, Defined(10.0))][..0] == [];
  }

  /** An unmarked message is kept as written and never reaches the
      translator. */
  lemma UnmarkedScenario(t: (string, TranslateOptions) -> string)
    ensures var issues := [ZodIssue([Key("name")], "too_small", "通常のエラーメッセージ", Defined(1.0), Undefined)];
      && TranslationCalls(issues, InheritedKeys) == []
      && FoldErrors(issues, t, InheritedKeys) == map["name" := FieldError("too_small", "通常のエラーメッセージ")]
  {
    assert !HasValidationPrefix("通常のエラーメッセージ") by {
      assert "通常のエラーメッセージ"[0] != ValidationPrefix[0];
    }
    assert [ZodIssue([Key("name")], "too_small", "通常のエラーメッセージ", Defined(1.0), Undefined)][..0] == [];
  }

  /** An issue whose key names an inherited member of the empty record is
      skipped: `errors["constructor"]` is already truthy, so no entry is
      made and even a marked message is not translated. */
  lemma InheritedKeyScenario(t: (string, TranslateOptions) -> string)
    ensures var issues := [ZodIssue([Key("constructor")], "custom", "validation:x", Undefined, Undefined)];
      && FoldErrors(issues, t, InheritedKeys) == map[]
      && TranslationCalls(issues, InheritedKeys) == []
  {
    assert "constructor" in InheritedKeys;
    assert [ZodIssue([Key("constructor")], "custom", "validation:x", Undefined, Undefined)][..0] == [];
  }

  // ---------------------------------------------------------------------
  // The resolver
  // ---------------------------------------------------------------------

  /** The resolver returned by `zodResolverWithI18n(schema)`, applied to the
      outcome of the schema check. It also returns, in order, the calls it
      made to the translator `t`. */
  method ResolveWithI18n<T>(parsed: SafeParseResult<T>, t: (string, TranslateOptions) -> string)
    returns (result: ResolverResult<T>, calls: seq<TranslateCall>)
    ensures parsed.ParseSuccess? ==> result == ResolverResult(Parsed(parsed.data), map[]) && calls == []
    ensures parsed.ParseFailure? ==> result.values == EmptyObject
    ensures parsed.ParseFailure? ==> result.errors == FoldErrors(parsed.issues, t, InheritedKeys)
    ensures parsed.ParseFailure? ==> calls == TranslationCalls(parsed.issues, InheritedKeys)
  {
    if parsed.ParseSuccess? {
      return ResolverResult(Parsed(parsed.data), map[]), [];
    }
    var issues := parsed.issues;
    var errors: map<string, FieldError> := map[];
    calls := [];
    for k := 0 to |issues|
      invariant errors == FoldErrors(issues[..k], t, InheritedKeys)
      invariant calls == TranslationCalls(issues[..k], InheritedKeys)
    {
      assert issues[..k + 1][..k] == issues[..k];
      LastIsFirstIff(issues[..k + 1], t, InheritedKeys);
      LastCallAppended(issues[..k + 1], InheritedKeys);
      var issue := issues[k];
      var path := JoinPath(issue.path);
      // `!errors[path]` on a record that started as `{}`: a key is taken once
      // it is filled, and an inherited member's name is taken from the start
      if |path| > 0 && path !in errors && path !in InheritedKeys {
        var message := issue.message;
        if HasValidationPrefix(message) {
          var key := message[|ValidationPrefix|..];
          var options := TranslateOptions(ValidationNamespace, issue.minimum, issue.maximum);
          message := t(key, options);
          calls := calls + [TranslateCall(key, options)];
        }
        errors := errors[path := FieldError(issue.code, message)];
      }
    }
    assert issues[..|issues|] == issues;
    result := ResolverResult(EmptyObject, errors);
  }
}
