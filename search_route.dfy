/**
  The search endpoint `POST /api/search`: it reads `prompt` and `k` from the
  JSON body, rejects an empty prompt, embeds the prompt, asks the vector
  store for the `k` nearest papers (`match_papers`), and returns the rows in
  a fixed shape. The two external services are parameters: `embed` stands for
  the embeddings call and `rpc` for the `match_papers` call, each returning
  what the service gave back or the exception it threw. The handler records
  which of them it called, in order.
 */
module SearchRoute {
  import opened Wrappers
  import opened JsString

  /**
    The integers a JSON number denotes exactly: every integer up to 2^53 in
    magnitude is a double, and `String` writes all of them in plain decimal.
   */
  type JsInt = n: int | -0x20_0000_0000_0000 <= n <= 0x20_0000_0000_0000

  /** A JSON value after `req.json()`, or `undefined` for a missing property. Numbers are integers. */
  datatype Value =
    | Undefined
    | Null
    | Bool(b: bool)
    | Num(n: JsInt)
    | Str(s: string)
    | Arr(items: seq<Value>)
    | Obj(fields: seq<Field>)

  datatype Field = Field(key: string, value: Value)

  /** JavaScript falsiness, for the values a JSON body can hold. */
  predicate Falsy(v: Value) {
    v.Undefined? || v.Null? || v == Bool(false) || v == Num(0) || v == Str("")
  }

  function Digit(d: nat): char
    requires d < 10
  {
    "0123456789"[d]
  }

  predicate AllDigits(s: string) {
    forall i :: 0 <= i < |s| ==> '0' <= s[i] <= '9'
  }

  /** The decimal numeral of `n`, without leading zeros. */
  function NatToDecimal(n: nat): (s: string)
    ensures s != [] && AllDigits(s)
    ensures n > 0 ==> s[0] != '0'
    decreases n
  {
    if n < 10 then [Digit(n)] else NatToDecimal(n / 10) + [Digit(n % 10)]
  }

  /** The value of a decimal numeral. */
  function DecimalValue(s: string): nat
    requires AllDigits(s)
  {
    if s == [] then 0 else DecimalValue(s[..|s| - 1]) * 10 + (s[|s| - 1] as int - '0' as int)
  }

  /** Reading back the numeral gives the number. */
  lemma {:induction false} DecimalRoundTrip(n: nat)
    ensures DecimalValue(NatToDecimal(n)) == n
    decreases n
  {
    var s := NatToDecimal(n);
    if n >= 10 {
      DecimalRoundTrip(n / 10);
      assert s[..|s| - 1] == NatToDecimal(n / 10);
    }
  }

  /** `String(n)` for an integer: a minus sign for a negative one, then the numeral of its magnitude. */
  function IntToDecimal(n: int): (s: string)
    ensures s != [] && (s[0] == '-' <==> n < 0)
    ensures n >= 0 ==> AllDigits(s) && DecimalValue(s) == n
    ensures n < 0 ==> AllDigits(s[1..]) && DecimalValue(s[1..]) == -n
    ensures |s| > 1 ==> s[if n < 0 then 1 else 0] != '0'
  {
    if n < 0 then
      var d := NatToDecimal(-n);
      DecimalRoundTrip(-n);
      SignedNumeral(d, -n);
      "-" + d
    else
      DecimalRoundTrip(n);
      NatToDecimal(n)
  }

  /** A minus sign in front of a numeral leaves the numeral after it. */
  lemma SignedNumeral(d: string, v: nat)
    requires d != [] && AllDigits(d) && DecimalValue(d) == v && (v > 0 ==> d[0] != '0')
    ensures ("-" + d)[0] == '-' && AllDigits(("-" + d)[1..]) && DecimalValue(("-" + d)[1..]) == v
    ensures v > 0 ==> ("-" + d)[1] != '0'
  {
    assert ("-" + d)[1..] == d;
  }

  /** Some field of the object is named `key`. */
  predicate HasOwnKey(fields: seq<Field>, key: string) {
    exists i :: 0 <= i < |fields| && fields[i].key == key
  }

  /**
    Whether `String(v)` and `Number(v)` throw a `TypeError`. Converting an
    object calls its `toString` and `valueOf` methods; an own property
    `toString` from JSON is never a function, so it hides the inherited method,
    `valueOf` gives back the object itself, and no primitive value comes out.
    An array converts through `join`, which converts each element.
   */
  predicate ConversionThrows(v: Value)
    decreases v
  {
    match v
    case Arr(items) => exists i :: 0 <= i < |items| && ConversionThrows(items[i])
    case Obj(fields) => HasOwnKey(fields, "toString")
    case _ => false
  }

  /** The message V8 gives that `TypeError`. */
  const ConversionError := Thrown(Some("Cannot convert object to primitive value"))

  /**
    `String(v)`, or `None` where it throws: arrays join their elements with
    commas, `null` and `undefined` elements as "", and other objects print as
    "[object Object]".
   */
  function ToJsString(v: Value): (r: Option<string>)
    ensures r.None? <==> ConversionThrows(v)
    ensures v.Bool? ==> r == Some(if v.b then "true" else "false")
    ensures v.Str? ==> r == Some(v.s)
    ensures v.Num? ==> r == Some(IntToDecimal(v.n))
    ensures v.Obj? && !ConversionThrows(v) ==> r == Some("[object Object]")
    ensures v.Arr? && !ConversionThrows(v) ==>
              r == Some(Join(seq(|v.items|, i requires 0 <= i < |v.items| && !ConversionThrows(v.items[i]) =>
                                   ElementString(v.items[i]).value), ","))
    decreases v, 0
  {
    match v
    case Undefined => Some("undefined")
    case Null => Some("null")
    case Bool(b) => Some(if b then "true" else "false")
    case Num(n) => Some(IntToDecimal(n))
    case Str(s) => Some(s)
    case Arr(items) =>
      if exists i :: 0 <= i < |items| && ConversionThrows(items[i]) then None
      else Some(Join(seq(|items|, i requires 0 <= i < |items| && !ConversionThrows(items[i]) =>
                           ElementString(items[i]).value), ","))
    case Obj(fields) => if HasOwnKey(fields, "toString") then None else Some("[object Object]")
  }

  /** How `join` converts one array element: "" for `null` and `undefined`, otherwise `String`. */
  function ElementString(x: Value): (r: Option<string>)
    ensures r.None? <==> ConversionThrows(x)
    ensures x.Undefined? || x.Null? ==> r == Some("")
    ensures !x.Undefined? && !x.Null? ==> r == ToJsString(x)
    decreases x, 1
  {
    if x.Undefined? || x.Null? then Some("") else ToJsString(x)
  }

  function Join(parts: seq<string>, sep: string): string {
    if parts == [] then ""
    else if |parts| == 1 then parts[0]
    else parts[0] + sep + Join(parts[1..], sep)
  }

  /** Field `i` binds `key`, and no later field does. */
  predicate IsLastBinding(fields: seq<Field>, key: string, i: int) {
    && 0 <= i < |fields| && fields[i].key == key
    && forall j :: i < j < |fields| ==> fields[j].key != key
  }

  /** An own property of an object, as `JSON.parse` leaves it: the last binding of the key, otherwise `undefined`. */
  function Lookup(fields: seq<Field>, key: string): (r: Value)
    ensures (forall i :: 0 <= i < |fields| ==> fields[i].key != key) ==> r == Undefined
  {
    if fields == [] then Undefined
    else if fields[|fields| - 1].key == key then fields[|fields| - 1].value
    else Lookup(fields[..|fields| - 1], key)
  }

  /** With duplicate keys, the last one wins. */
  lemma {:induction false} LookupFindsLastBinding(fields: seq<Field>, key: string, i: int)
    requires IsLastBinding(fields, key, i)
    ensures Lookup(fields, key) == fields[i].value
  {
    if i < |fields| - 1 {
      var front := fields[..|fields| - 1];
      assert IsLastBinding(front, key, i);
      LookupFindsLastBinding(front, key, i);
    }
  }

  /**
    `body?.key` for the two properties the handler reads: neither
    `Object.prototype` nor the prototype of an array or a primitive has a
    property `prompt` or `k`, so an object's own property is the whole story
    and every other body gives `undefined`.
   */
  function Get(body: Value, key: string): (r: Value)
    requires key == "prompt" || key == "k"
    ensures !body.Obj? ==> r == Undefined
    ensures body.Obj? ==> r == Lookup(body.fields, key)
  {
    match body
    case Obj(fields) => Lookup(fields, key)
    case _ => Undefined
  }

  /** `String(v || "").trim()`, or `None` where `String` throws. */
  function NormalizePrompt(v: Value): (prompt: Option<string>)
    ensures prompt.None? <==> ConversionThrows(v)
    ensures Falsy(v) ==> prompt == Some("")
    ensures v.Str? ==> prompt == Some(Trim(v.s))
    ensures v.Num? && v.n != 0 ==> prompt == Some(IntToDecimal(v.n))
    ensures v == Bool(true) ==> prompt == Some("true")
    ensures v.Obj? && !ConversionThrows(v) ==> prompt == Some("[object Object]")
    ensures !Falsy(v) && !ConversionThrows(v) ==> prompt == Some(Trim(ToJsString(v).value))
    ensures prompt.Some? ==> prompt.value == [] || !IsWhitespace(prompt.value[0])
    ensures prompt.Some? ==> prompt.value == [] || !IsWhitespace(prompt.value[|prompt.value| - 1])
  {
    if Falsy(v) then Some("")
    else match ToJsString(v)
      case None => None
      case Some(s) =>
        if v.Num? then
          NumeralIsTrimmed(v.n);
          Some(Trim(s))
        else if v.Bool? || v.Obj? then
          TrimOfTrimmed(s);
          Some(Trim(s))
        else Some(Trim(s))
  }

  lemma NumeralIsTrimmed(n: int)
    ensures Trim(IntToDecimal(n)) == IntToDecimal(n)
  {
    var s := IntToDecimal(n);
    assert s[0] != ' ' && !IsWhitespace(s[0]) && !IsWhitespace(s[|s| - 1]);
    TrimOfTrimmed(s);
  }

  /** Normalising an already normalised prompt changes nothing. */
  lemma {:induction false} NormalizePromptIdempotent(v: Value)
    requires !ConversionThrows(v)
    ensures NormalizePrompt(Str(NormalizePrompt(v).value)) == NormalizePrompt(v)
  {
    var p := NormalizePrompt(v).value;
    if p != "" {
      TrimOfTrimmed(p);
    }
  }

  /** `String([1, null, "a"])` is "1,,a". */
  lemma ArrayStringExample()
    ensures ToJsString(Arr([Num(1), Null, Str("a")])) == Some("1,,a")
  {
    var items := [Num(1), Null, Str("a")];
    assert IntToDecimal(1) == "1";
    assert forall i :: 0 <= i < |items| ==> !ConversionThrows(items[i]);
    assert seq(|items|, i requires 0 <= i < |items| && !ConversionThrows(items[i]) => ElementString(items[i]).value)
           == ["1", "", "a"];
    assert Join(["a"], ",") == "a";
    assert Join(["", "a"], ",") == ",a";
    assert Join(["1", "", "a"], ",") == "1,,a";
  }

  /** A prompt that is an object with its own `toString`, alone or inside an array, makes `String` throw. */
  lemma PromptConversionThrowsExample()
    ensures NormalizePrompt(Obj([Field("toString", Num(0))])) == None
    ensures NormalizePrompt(Arr([Str("x"), Obj([Field("toString", Num(0))])])) == None
  {
    var bad := Obj([Field("toString", Num(0))]);
    assert bad.fields[0].key == "toString";
    assert Arr([Str("x"), bad]).items[1] == bad;
  }

  /** An own `valueOf` does not hide `toString`, so the object still prints as "[object Object]". */
  lemma OwnValueOfExample()
    ensures NormalizePrompt(Obj([Field("valueOf", Num(0))])) == Some("[object Object]")
  {
    assert !HasOwnKey([Field("valueOf", Num(0))], "toString") by {
      assert [Field("valueOf", Num(0))][0].key[0] == 'v';
    }
    TrimOfTrimmed("[object Object]");
  }

  /** `k` values the model covers: absent, `null`, a boolean or an integer. */
  predicate KSupported(k: Value) {
    k.Undefined? || k.Null? || k.Bool? || k.Num?
  }

  const DefaultK := 8
  const MaxK := 20

  /** `Math.max(1, Math.min(Number(k ?? 8), 20))`, where `Number` maps `true` to 1 and `false` to 0. */
  function EffectiveK(k: Value): (r: int)
    requires KSupported(k)
    ensures 1 <= r <= MaxK
    ensures k.Undefined? || k.Null? ==> r == DefaultK
    ensures k.Bool? ==> r == 1
    ensures k.Num? && 1 <= k.n <= MaxK ==> r == k.n
    ensures k.Num? && k.n < 1 ==> r == 1
    ensures k.Num? && k.n > MaxK ==> r == MaxK
  {
    var n := if k.Undefined? || k.Null? then DefaultK else if k.Bool? then (if k.b then 1 else 0) else k.n;
    Max(1, Min(n, MaxK))
  }

  function Min(a: int, b: int): int { if a < b then a else b }
  function Max(a: int, b: int): int { if a < b then b else a }

  /** The examples of the clamp: 0 and -5 become 1, 1000 becomes 20, absent becomes 8. */
  lemma EffectiveKExamples()
    ensures EffectiveK(Num(0)) == 1 && EffectiveK(Num(-5)) == 1
    ensures EffectiveK(Num(1000)) == 20 && EffectiveK(Undefined) == 8 && EffectiveK(Num(12)) == 12
  {
  }

  /** An exception; `e?.message ?? "Unknown error"` reads its message. */
  datatype Thrown = Thrown(message: Option<string>)

  function ThrownMessage(t: Thrown): (message: string)
    ensures t.message.Some? ==> message == t.message.value
    ensures t.message.None? ==> message == "Unknown error"
  {
    match t.message
    case Some(m) => m
    case None => "Unknown error"
  }

  /** The embedding vector is passed on to the vector store and never inspected. */
  type Embedding = seq<real>

  datatype EmbedOutcome = Embedded(embedding: Embedding) | EmbedThrew(thrown: Thrown)

  /** A row as `match_papers` returns it. */
  datatype RawRow = RawRow(url: Value, abstract1l: Value, score: Value, guideType: Value)

  /** What `supabase.rpc` resolves to (`data` absent or `null` is `None`), or the exception it threw. */
  datatype RpcOutcome =
    | RpcReturned(data: Option<seq<RawRow>>, error: Option<string>)
    | RpcThrew(thrown: Thrown)

  /** `Number(r.score)`, kept as the value it converts. */
  datatype Score = NumberOf(raw: Value)

  /** A row of the response, `MatchRow`. */
  datatype MatchRow = MatchRow(url: Value, abstract1l: Value, score: Score, guideType: Value)

  /** One row of `(data || []).map(...)`: url and abstract pass through, a falsy guide type becomes "". */
  function ShapeRow(r: RawRow): (row: MatchRow)
    ensures row.url == r.url && row.abstract1l == r.abstract1l && row.score == NumberOf(r.score)
    ensures Falsy(r.guideType) ==> row.guideType == Str("")
    ensures !Falsy(r.guideType) ==> row.guideType == r.guideType
    ensures !(Falsy(row.guideType) && row.guideType != Str(""))
  {
    MatchRow(r.url, r.abstract1l, NumberOf(r.score), if Falsy(r.guideType) then Str("") else r.guideType)
  }

  function ShapeRows(data: Option<seq<RawRow>>): (rows: seq<MatchRow>)
    ensures data.None? ==> rows == []
    ensures data.Some? ==> |rows| == |data.value|
  {
    match data
    case None => []
    case Some(raw) => seq(|raw|, i requires 0 <= i < |raw| => ShapeRow(raw[i]))
  }

  /** The external calls the handler made, in order. */
  datatype Call = EmbedCall(input: string) | MatchPapersCall(queryEmbedding: Embedding, matchCount: int)

  datatype Body = Results(rows: seq<MatchRow>) | ErrorBody(error: string)

  datatype Response = Response(status: int, body: Body)

  datatype Handled = Handled(response: Response, calls: seq<Call>)

  /** The request body as `req.json()` gives it, or the exception it threw. */
  datatype Request = Unparsable(thrown: Thrown) | Json(body: Value)

  function RequestPrompt(body: Value): (prompt: Option<string>)
    ensures prompt.None? <==> ConversionThrows(Get(body, "prompt"))
  {
    NormalizePrompt(Get(body, "prompt"))
  }

  /** Both conversions succeed and the prompt is not blank: the handler goes on to the external calls. */
  predicate Proceeds(req: Request) {
    && req.Json?
    && RequestPrompt(req.body).Some? && RequestPrompt(req.body).value != ""
    && !ConversionThrows(Get(req.body, "k"))
  }

  /** The trimmed prompt of a request that proceeds. */
  function Prompt(req: Request): (prompt: string)
    requires Proceeds(req)
    ensures prompt != [] && !IsWhitespace(prompt[0]) && !IsWhitespace(prompt[|prompt| - 1])
  {
    var prompt := NormalizePrompt(Get(req.body, "prompt"));
    prompt.value
  }

  /** The model covers the `k` values above once the handler gets as far as using `k`. */
  predicate Supported(req: Request) {
    Proceeds(req) ==> KSupported(Get(req.body, "k"))
  }

  function ServerError(t: Thrown): Response {
    Response(500, ErrorBody(ThrownMessage(t)))
  }

  /**
    `POST(req)`, with the embeddings service and the `match_papers` call as
    parameters. Both conversions run before the prompt is checked, so a `k`
    that cannot be converted makes even a blank prompt a 500.
   */
  function Post(req: Request, embed: string -> EmbedOutcome, rpc: (Embedding, int) -> RpcOutcome): (h: Handled)
    requires Supported(req)
    ensures h.response.status in {200, 400, 500}
    ensures h.response.status == 200 <==> h.response.body.Results?
    ensures h.response.status == 400 <==>
              req.Json? && RequestPrompt(req.body) == Some("") && !ConversionThrows(Get(req.body, "k"))
    ensures h.response.status == 400 ==> h.response.body == ErrorBody("Missing prompt")
    ensures req.Json? && (ConversionThrows(Get(req.body, "prompt")) || ConversionThrows(Get(req.body, "k"))) ==>
              h == Handled(ServerError(ConversionError), [])
    ensures h.calls != [] <==> Proceeds(req)
    ensures h.calls != [] ==> h.calls[0] == EmbedCall(Prompt(req))
    ensures Proceeds(req) && embed(Prompt(req)).EmbedThrew? ==> |h.calls| == 1
    ensures Proceeds(req) && embed(Prompt(req)).Embedded? ==> |h.calls| == 2
    ensures |h.calls| <= 2
    ensures |h.calls| == 2 ==> && embed(Prompt(req)).Embedded?
                               && h.calls[1] == MatchPapersCall(embed(Prompt(req)).embedding,
                                                                EffectiveK(Get(req.body, "k")))
    ensures h.response.body.Results? ==> |h.calls| == 2
  {
    match req
    case Unparsable(t) => Handled(ServerError(t), [])
    case Json(body) =>
      match RequestPrompt(body)
      case None => Handled(ServerError(ConversionError), [])
      case Some(prompt) =>
        if ConversionThrows(Get(body, "k")) then Handled(ServerError(ConversionError), [])
        else if prompt == "" then Handled(Response(400, ErrorBody("Missing prompt")), [])
        else
          var k := EffectiveK(Get(body, "k"));
          match embed(prompt)
          case EmbedThrew(t) => Handled(ServerError(t), [EmbedCall(prompt)])
          case Embedded(v) =>
            var calls := [EmbedCall(prompt), MatchPapersCall(v, k)];
            match rpc(v, k)
            case RpcThrew(t) => Handled(ServerError(t), calls)
            case RpcReturned(data, error) =>
              if error.Some? then Handled(Response(500, ErrorBody(error.value)), calls)
              else Handled(Response(200, Results(ShapeRows(data))), calls)
  }

  /** A missing, falsy or blank prompt is a 400 before any external call, once `k` converts. */
  lemma BlankPromptRejected(s: string, fields: seq<Field>, embed: string -> EmbedOutcome,
                            rpc: (Embedding, int) -> RpcOutcome)
    requires Falsy(Lookup(fields, "prompt")) || (AllWhitespace(s) && Lookup(fields, "prompt") == Str(s))
    requires !ConversionThrows(Lookup(fields, "k"))
    ensures Post(Json(Obj(fields)), embed, rpc) == Handled(Response(400, ErrorBody("Missing prompt")), [])
  {
    TrimEmptyIff(s);
  }

  /** `{"prompt": "", "k": {"toString": 0}}`: converting `k` throws before the prompt is checked. */
  lemma BlankPromptWithBadKExample(embed: string -> EmbedOutcome, rpc: (Embedding, int) -> RpcOutcome)
    ensures Post(Json(Obj([Field("prompt", Str("")), Field("k", Obj([Field("toString", Num(0))]))])), embed, rpc)
            == Handled(Response(500, ErrorBody("Cannot convert object to primitive value")), [])
  {
    var fields := [Field("prompt", Str("")), Field("k", Obj([Field("toString", Num(0))]))];
    LookupFindsLastBinding(fields, "prompt", 0);
    LookupFindsLastBinding(fields, "k", 1);
    assert Obj([Field("toString", Num(0))]).fields[0].key == "toString";
  }

  /** `{"prompt": {"toString": 0}}`: converting the prompt throws, and nothing is called. */
  lemma PromptObjectExample(embed: string -> EmbedOutcome, rpc: (Embedding, int) -> RpcOutcome)
    ensures Post(Json(Obj([Field("prompt", Obj([Field("toString", Num(0))]))])), embed, rpc)
            == Handled(Response(500, ErrorBody("Cannot convert object to primitive value")), [])
  {
    var fields := [Field("prompt", Obj([Field("toString", Num(0))]))];
    LookupFindsLastBinding(fields, "prompt", 0);
    assert Obj([Field("toString", Num(0))]).fields[0].key == "toString";
  }

  /** The RPC is asked for the clamped `k`, which is between 1 and 20. */
  lemma MatchCountIsClampedK(req: Request, embed: string -> EmbedOutcome, rpc: (Embedding, int) -> RpcOutcome)
    requires Supported(req)
    requires |Post(req, embed, rpc).calls| == 2
    ensures Post(req, embed, rpc).calls[1].matchCount == EffectiveK(Get(req.body, "k"))
    ensures 1 <= Post(req, embed, rpc).calls[1].matchCount <= MaxK
  {
  }

  /** An RPC error is a 500 carrying the upstream message, with no results. */
  lemma RpcErrorIsServerError(req: Request, embed: string -> EmbedOutcome, rpc: (Embedding, int) -> RpcOutcome,
                              data: Option<seq<RawRow>>, message: string)
    requires Supported(req) && Proceeds(req)
    requires embed(Prompt(req)).Embedded?
    requires rpc(embed(Prompt(req)).embedding, EffectiveK(Get(req.body, "k"))) == RpcReturned(data, Some(message))
    ensures Post(req, embed, rpc)
            == Handled(Response(500, ErrorBody(message)),
                       [EmbedCall(Prompt(req)), MatchPapersCall(embed(Prompt(req)).embedding, EffectiveK(Get(req.body, "k")))])
  {
  }

  /**
    Every exception, from the body, a conversion, the embeddings call or the
    RPC, is a 500 with its message.
   */
  lemma ThrownIsServerError(req: Request, embed: string -> EmbedOutcome, rpc: (Embedding, int) -> RpcOutcome)
    requires Supported(req)
    ensures req.Unparsable? ==> Post(req, embed, rpc).response == ServerError(req.thrown)
    ensures req.Json? && (ConversionThrows(Get(req.body, "prompt")) || ConversionThrows(Get(req.body, "k"))) ==>
              Post(req, embed, rpc).response == Response(500, ErrorBody("Cannot convert object to primitive value"))
    ensures Proceeds(req) && embed(Prompt(req)).EmbedThrew? ==>
              Post(req, embed, rpc) == Handled(ServerError(embed(Prompt(req)).thrown), [EmbedCall(Prompt(req))])
    ensures Proceeds(req) && embed(Prompt(req)).Embedded? &&
            rpc(embed(Prompt(req)).embedding, EffectiveK(Get(req.body, "k"))).RpcThrew? ==>
              Post(req, embed, rpc)
                == Handled(ServerError(rpc(embed(Prompt(req)).embedding, EffectiveK(Get(req.body, "k"))).thrown),
                           [EmbedCall(Prompt(req)),
                            MatchPapersCall(embed(Prompt(req)).embedding, EffectiveK(Get(req.body, "k")))])
  {
  }

  /** Without an exception or an error, the response lists the rows in the fixed shape. */
  lemma SuccessShapesRows(req: Request, embed: string -> EmbedOutcome, rpc: (Embedding, int) -> RpcOutcome,
                          data: Option<seq<RawRow>>)
    requires Supported(req) && Proceeds(req)
    requires embed(Prompt(req)).Embedded?
    requires rpc(embed(Prompt(req)).embedding, EffectiveK(Get(req.body, "k"))) == RpcReturned(data, None)
    ensures Post(req, embed, rpc).response == Response(200, Results(ShapeRows(data)))
    ensures data.None? || data == Some([]) ==> Post(req, embed, rpc).response == Response(200, Results([]))
  {
  }

  /** Row shaping is one-to-one and in order; url and abstract pass through; a falsy guide type becomes "". */
  lemma {:induction false} ShapeRowsPointwise(raw: seq<RawRow>, i: nat)
    requires i < |raw|
    ensures var row := ShapeRows(Some(raw))[i];
            && row.url == raw[i].url && row.abstract1l == raw[i].abstract1l
            && row.score == NumberOf(raw[i].score)
            && (Falsy(raw[i].guideType) ==> row.guideType == Str(""))
            && (!Falsy(raw[i].guideType) ==> row.guideType == raw[i].guideType)
            && !(Falsy(row.guideType) && row.guideType != Str(""))
  {
  }

  /** When the store returns at most `match_count` rows, the response has at most 20. */
  lemma ResultsBoundedByK(req: Request, embed: string -> EmbedOutcome, rpc: (Embedding, int) -> RpcOutcome)
    requires Supported(req)
    requires forall v, n :: rpc(v, n).RpcReturned? && rpc(v, n).data.Some? ==> |rpc(v, n).data.value| <= n
    ensures Post(req, embed, rpc).response.body.Results? ==>
              |Post(req, embed, rpc).response.body.rows| <= EffectiveK(Get(req.body, "k")) <= MaxK
  {
  }
}
