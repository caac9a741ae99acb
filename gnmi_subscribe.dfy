/** `newSubscribeRequest` and the validation at the top of `Start`: the
    plugin configuration turned into the one gNMI SubscribeRequest sent to
    every device. Each subscription's path is parsed (with no target) and
    its mode looked up by its upper-cased name; then the prefix path is
    parsed with the configured origin and target, and only the "proto"
    encoding is accepted. The first failure is the one reported. `Start`
    then refuses a redial period that is not positive. */
module GnmiSubscribe {
  import opened Common
  import opened Text
  import opened GnmiPath

  /** One `[[subscription]]` table of the configuration; durations are
      Go `time.Duration` values, signed 64-bit nanosecond counts. */
  datatype SubscriptionConfig = SubscriptionConfig(
    origin: string,
    path: string,
    mode: string,
    sampleInterval: int64,
    heartbeatInterval: int64,
    suppressRedundant: bool)

  datatype Config = Config(
    subscriptions: seq<SubscriptionConfig>,
    encoding: string,
    origin: string,
    prefix: string,
    target: string,
    updatesOnly: bool,
    redial: int64)

  /** `gnmi.SubscriptionMode`. */
  datatype Mode = TargetDefined | OnChange | Sample

  /** `gnmi.Encoding`; `Json` is the zero value. */
  datatype Encoding = Json | Bytes | Proto | Ascii | JsonIetf

  /** `gnmi.SubscriptionMode_value`. */
  const ModeValues: map<string, Mode> :=
    map["TARGET_DEFINED" := TargetDefined, "ON_CHANGE" := OnChange, "SAMPLE" := Sample]

  /** `gnmi.Encoding_value`. */
  const EncodingValues: map<string, Encoding> :=
    map["JSON" := Json, "BYTES" := Bytes, "PROTO" := Proto, "ASCII" := Ascii, "JSON_IETF" := JsonIetf]

  /** `gnmi.Subscription`; the intervals are unsigned nanosecond counts. */
  datatype Subscription = Subscription(
    path: Path,
    mode: Mode,
    sampleInterval: uint64,
    suppressRedundant: bool,
    heartbeatInterval: uint64)

  /** The `SubscriptionList` of a `SubscribeRequest`; its list mode is
      always STREAM, so it is not stored. */
  datatype SubscribeRequest = SubscribeRequest(
    prefix: Path,
    encoding: Encoding,
    subscriptions: seq<Subscription>,
    updatesOnly: bool)

  datatype ConfigError =
    | BadPath(path: PathError)
    | InvalidMode(mode: string)
    | UnsupportedEncoding(encoding: string)
    | RedialNotPositive

  /** The mode named case-insensitively, or None. */
  function ModeOf(name: string): Option<Mode>
  {
    Get(ModeValues, ToUpper(name))
  }

  /** `gnmi.Encoding(gnmi.Encoding_value[strings.ToUpper(name)])`: an
      unknown name reads as the zero value. */
  function EncodingOf(name: string): Encoding
  {
    var key := ToUpper(name);
    if key in EncodingValues then EncodingValues[key] else Json
  }

  /** One subscription: its path parsed with an empty target, then its
      mode; the intervals converted to unsigned as Go's `uint64(...)`
      does. */
  function SubscriptionOf(s: SubscriptionConfig): Result<Subscription, ConfigError>
  {
    match Parse(s.origin, s.path, "")
    case Failure(e) => Failure(BadPath(e))
    case Success(path) =>
      match ModeOf(s.mode)
      case None => Failure(InvalidMode(s.mode))
      case Some(m) =>
        Success(Subscription(path, m, ToUint64(s.sampleInterval), s.suppressRedundant, ToUint64(s.heartbeatInterval)))
  }

  /** Results in order, stopping at the first failure: a Go loop that
      returns on its first error. */
  function Collect<T, E>(rs: seq<Result<T, E>>): Result<seq<T>, E>
  {
    if rs == [] then Success([])
    else
      match Collect(rs[..|rs| - 1])
      case Failure(e) => Failure(e)
      case Success(init) =>
        match rs[|rs| - 1]
        case Failure(e) => Failure(e)
        case Success(x) => Success(init + [x])
  }

  /** Each subscription's own result. */
  function Results(cs: seq<SubscriptionConfig>): seq<Result<Subscription, ConfigError>>
  {
    seq(|cs|, i requires 0 <= i < |cs| => SubscriptionOf(cs[i]))
  }

  /** The subscriptions in order, stopping at the first that fails. */
  function SubscriptionsOf(cs: seq<SubscriptionConfig>): Result<seq<Subscription>, ConfigError>
  {
    Collect(Results(cs))
  }

  /** What `newSubscribeRequest` returns: the subscriptions first, then the
      prefix path, then the encoding. */
  function Request(c: Config): Result<SubscribeRequest, ConfigError>
  {
    match SubscriptionsOf(c.subscriptions)
    case Failure(e) => Failure(e)
    case Success(subs) =>
      match Parse(c.origin, c.prefix, c.target)
      case Failure(e) => Failure(BadPath(e))
      case Success(prefix) =>
        if c.encoding != "proto" then Failure(UnsupportedEncoding(c.encoding))
        else Success(SubscribeRequest(prefix, EncodingOf(c.encoding), subs, c.updatesOnly))
  }

  /** The validation in `Start`: the request, and then the redial period. */
  function Validate(c: Config): Result<SubscribeRequest, ConfigError>
  {
    match Request(c)
    case Failure(e) => Failure(e)
    case Success(r) => if c.redial <= 0 then Failure(RedialNotPositive) else Success(r)
  }

  /** `newSubscribeRequest`. */
  method NewSubscribeRequest(c: Config) returns (r: Result<SubscribeRequest, ConfigError>)
    ensures r == Request(c)
  {
    var subscriptions: seq<Subscription> := [];
    ghost var rs := Results(c.subscriptions);
    var i := 0;
    while i < |c.subscriptions|
      invariant 0 <= i <= |c.subscriptions|
      invariant Collect(rs[..i]) == Success(subscriptions)
    {
      var sub := NewSubscription(c.subscriptions[i]);
      CollectNext(rs, i, subscriptions);
      if sub.Failure? {
        CollectFailureStays(rs, i + 1, sub.error);
        return Failure(sub.error);
      }
      subscriptions := subscriptions + [sub.value];
      i := i + 1;
    }
    assert rs[..i] == rs;

    var gnmiPath := ParsePath(c.origin, c.prefix, c.target);
    if gnmiPath.Failure? {
      return Failure(BadPath(gnmiPath.error));
    }
    if c.encoding != "proto" {
      return Failure(UnsupportedEncoding(c.encoding));
    }
    var encoding := EncodingOf(c.encoding);
    return Success(SubscribeRequest(gnmiPath.value, encoding, subscriptions, c.updatesOnly));
  }

  /** The body of the subscription loop of `newSubscribeRequest`. */
  method NewSubscription(sub: SubscriptionConfig) returns (r: Result<Subscription, ConfigError>)
    ensures r == SubscriptionOf(sub)
  {
    var gnmiPath := ParsePath(sub.origin, sub.path, "");
    if gnmiPath.Failure? {
      return Failure(BadPath(gnmiPath.error));
    }
    var key := ToUpper(sub.mode);
    if key !in ModeValues {
      return Failure(InvalidMode(sub.mode));
    }
    var mode := ModeValues[key];
    return Success(Subscription(gnmiPath.value, mode,
      ToUint64(sub.sampleInterval), sub.suppressRedundant, ToUint64(sub.heartbeatInterval)));
  }

  /** The validation at the top of `Start`. */
  method Start(c: Config) returns (r: Result<SubscribeRequest, ConfigError>)
    ensures r == Validate(c)
  {
    r := NewSubscribeRequest(c);
    if r.Success? && c.redial <= 0 {
      r := Failure(RedialNotPositive);
    }
  }

  // ----- first error wins -----

  /** One more result: the list so far, extended by its value or cut
      short by its error. */
  lemma CollectNext<T, E>(rs: seq<Result<T, E>>, i: nat, xs: seq<T>)
    requires i < |rs| && Collect(rs[..i]) == Success(xs)
    ensures rs[i].Failure? ==> Collect(rs[..i + 1]) == Failure(rs[i].error)
    ensures rs[i].Success? ==> Collect(rs[..i + 1]) == Success(xs + [rs[i].value])
  {
    assert rs[..i + 1][..i] == rs[..i];
  }

  /** Once a front of the list fails, the whole list fails the same way. */
  lemma {:induction false} CollectFailureStays<T, E>(rs: seq<Result<T, E>>, n: nat, e: E)
    requires 0 < n <= |rs| && Collect(rs[..n]) == Failure(e)
    ensures Collect(rs) == Failure(e)
    decreases |rs| - n
  {
    if n == |rs| {
      assert rs[..n] == rs;
    } else {
      assert rs[..n + 1][..n] == rs[..n];
      CollectFailureStays(rs, n + 1, e);
    }
  }

  /** The list succeeds exactly when every result does. */
  lemma {:induction false} CollectSucceeds<T, E>(rs: seq<Result<T, E>>)
    ensures Collect(rs).Success? <==> forall i :: 0 <= i < |rs| ==> rs[i].Success?
  {
    if rs != [] {
      var init := rs[..|rs| - 1];
      CollectSucceeds(init);
      assert forall i :: 0 <= i < |init| ==> rs[i] == init[i];
    }
  }

  /** A list that succeeds holds every value, in order. */
  lemma {:induction false} CollectValues<T, E>(rs: seq<Result<T, E>>)
    requires Collect(rs).Success?
    ensures |Collect(rs).value| == |rs|
    ensures forall i :: 0 <= i < |rs| ==> rs[i].Success? && Collect(rs).value[i] == rs[i].value
  {
    if rs != [] {
      var init := rs[..|rs| - 1];
      CollectValues(init);
      assert forall i :: 0 <= i < |init| ==> rs[i] == init[i];
    }
  }

  /** A failing list reports the error of its first failure. */
  lemma {:induction false} CollectFirstError<T, E>(rs: seq<Result<T, E>>)
    requires Collect(rs).Failure?
    ensures exists i :: (0 <= i < |rs|
      && (forall j :: 0 <= j < i ==> rs[j].Success?)
      && rs[i] == Failure(Collect(rs).error))
  {
    var init := rs[..|rs| - 1];
    assert forall j :: 0 <= j < |init| ==> rs[j] == init[j];
    if Collect(init).Failure? {
      CollectFirstError(init);
    } else {
      CollectSucceeds(init);
    }
  }

  // ----- the subscriptions -----

  lemma ResultsAt(cs: seq<SubscriptionConfig>)
    ensures |Results(cs)| == |cs|
    ensures forall i :: 0 <= i < |cs| ==> Results(cs)[i] == SubscriptionOf(cs[i])
  {
  }

  /** The subscriptions succeed exactly when each one does. */
  lemma SubscriptionsSucceed(cs: seq<SubscriptionConfig>)
    ensures SubscriptionsOf(cs).Success? <==> forall i :: 0 <= i < |cs| ==> SubscriptionOf(cs[i]).Success?
  {
    ResultsAt(cs);
    CollectSucceeds(Results(cs));
  }

  /** Subscriptions that succeed are each one's own result, in order. */
  lemma SubscriptionsValues(cs: seq<SubscriptionConfig>)
    requires SubscriptionsOf(cs).Success?
    ensures |SubscriptionsOf(cs).value| == |cs|
    ensures forall i :: 0 <= i < |cs| ==>
      SubscriptionOf(cs[i]).Success? && SubscriptionsOf(cs).value[i] == SubscriptionOf(cs[i]).value
  {
    ResultsAt(cs);
    CollectValues(Results(cs));
  }

  /** Failing subscriptions report the error of the first that fails. */
  lemma FirstErrorReported(cs: seq<SubscriptionConfig>)
    requires SubscriptionsOf(cs).Failure?
    ensures exists i :: (0 <= i < |cs|
      && (forall j :: 0 <= j < i ==> SubscriptionOf(cs[j]).Success?)
      && SubscriptionOf(cs[i]) == Failure(SubscriptionsOf(cs).error))
  {
    ResultsAt(cs);
    CollectFirstError(Results(cs));
    var i :| 0 <= i < |cs|
      && (forall j :: 0 <= j < i ==> Results(cs)[j].Success?)
      && Results(cs)[i] == Failure(SubscriptionsOf(cs).error);
    assert SubscriptionOf(cs[i]) == Failure(SubscriptionsOf(cs).error);
  }

  /** A subscription fails on a bad path before its mode is looked at, and
      on an unknown mode only when its path parses. */
  lemma SubscriptionErrors(s: SubscriptionConfig)
    ensures SubscriptionOf(s).Success? <==> Parse(s.origin, s.path, "").Success? && ToUpper(s.mode) in ModeValues
    ensures Parse(s.origin, s.path, "").Failure? ==> SubscriptionOf(s) == Failure(BadPath(Parse(s.origin, s.path, "").error))
    ensures Parse(s.origin, s.path, "").Success? && ToUpper(s.mode) !in ModeValues ==>
      SubscriptionOf(s) == Failure(InvalidMode(s.mode))
  {
  }

  // ----- modes and encodings -----

  lemma ToUpperIdempotent(s: string)
    ensures ToUpper(ToUpper(s)) == ToUpper(s)
  {
    var u := ToUpper(s);
    assert forall i :: 0 <= i < |u| ==> !('a' <= u[i] <= 'z');
  }

  /** Mode names are matched without regard to ASCII case. */
  lemma ModeCaseInsensitive(name: string)
    ensures ModeOf(ToUpper(name)) == ModeOf(name)
  {
    ToUpperIdempotent(name);
  }

  /** The one encoding accepted reads as PROTO (used by `RequestContents`). */
  lemma ProtoEncoding()
    ensures EncodingOf("proto") == Proto
  {
    var u := ToUpper("proto");
    assert u == "PROTO" by {
      assert |u| == 5;
      assert u[0] == 'P' && u[1] == 'R' && u[2] == 'O' && u[3] == 'T' && u[4] == 'O';
    }
  }

  // ----- the request -----

  /** `newSubscribeRequest` succeeds exactly when every subscription, the
      prefix path and the encoding are valid, and then the request holds
      the parsed prefix with the configured origin and target, the PROTO
      encoding, one subscription per configured one in order, and the
      updates-only flag. */
  lemma RequestSucceeds(c: Config)
    ensures Request(c).Success? <==>
      && (forall i :: 0 <= i < |c.subscriptions| ==> SubscriptionOf(c.subscriptions[i]).Success?)
      && Parse(c.origin, c.prefix, c.target).Success?
      && c.encoding == "proto"
  {
    SubscriptionsSucceed(c.subscriptions);
  }

  lemma RequestContents(c: Config)
    requires Request(c).Success?
    ensures
      var r := Request(c).value;
      && r.prefix == Parse(c.origin, c.prefix, c.target).value
      && r.prefix.origin == c.origin && r.prefix.target == c.target
      && r.encoding == Proto
      && r.updatesOnly == c.updatesOnly
      && |r.subscriptions| == |c.subscriptions|
      && forall i :: 0 <= i < |c.subscriptions| ==>
           var s, sc := r.subscriptions[i], c.subscriptions[i];
           && Parse(sc.origin, sc.path, "").Success?
           && s.path == Parse(sc.origin, sc.path, "").value
           && s.path.origin == sc.origin && s.path.target == ""
           && ModeOf(sc.mode) == Some(s.mode)
           && s.sampleInterval == ToUint64(sc.sampleInterval)
           && s.heartbeatInterval == ToUint64(sc.heartbeatInterval)
           && s.suppressRedundant == sc.suppressRedundant
  {
    SubscriptionsValues(c.subscriptions);
    ProtoEncoding();
    ParseOrigin(c.origin, c.prefix, c.target);
    forall i | 0 <= i < |c.subscriptions|
      ensures Request(c).value.subscriptions[i].path.origin == c.subscriptions[i].origin
      ensures Request(c).value.subscriptions[i].path.target == ""
    {
      ParseOrigin(c.subscriptions[i].origin, c.subscriptions[i].path, "");
    }
  }

  /** The parsed path carries the origin and target it was given. */
  lemma ParseOrigin(origin: string, path: string, target: string)
    requires Parse(origin, path, target).Success?
    ensures Parse(origin, path, target).value.origin == origin
    ensures Parse(origin, path, target).value.target == target
  {
  }

  /** A negative interval is sent as its two's-complement value, 2^64
      more. */
  lemma NegativeIntervalWraps(c: Config, i: nat)
    requires Request(c).Success? && i < |c.subscriptions| && c.subscriptions[i].sampleInterval < 0
    ensures i < |Request(c).value.subscriptions|
    ensures Request(c).value.subscriptions[i].sampleInterval == c.subscriptions[i].sampleInterval + 0x1_0000_0000_0000_0000
  {
    RequestContents(c);
  }

  /** The configuration errors are reported before the redial period is
      checked: `Start` fails on the redial period only for a configuration
      that makes a request, and otherwise with the request's own error. */
  lemma StartOrder(c: Config)
    ensures Validate(c).Success? <==> Request(c).Success? && c.redial > 0
    ensures Request(c).Failure? ==> Validate(c) == Request(c)
    ensures Validate(c) == Failure(RedialNotPositive) <==> Request(c).Success? && c.redial <= 0
  {
    if SubscriptionsOf(c.subscriptions).Failure? {
      FirstErrorReported(c.subscriptions);
    }
  }
}
