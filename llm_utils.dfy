/** Model and response-budget selection (src/generation/llm_utils.py): the
    `MODEL_INFO` table, the padded token count of a prompt, and
    `get_model_max_token_from_prompt`. The tokenizer's count is an input. */
module LlmUtils {
  import opened Wrappers

  datatype ModelName = Gpt35Turbo4K | Gpt35Turbo16K | Gpt4 {
    /** The name the OpenAI API knows the model by. */
    function Name(): string {
      match this
      case Gpt35Turbo4K => "gpt-3.5-turbo"
      case Gpt35Turbo16K => "gpt-3.5-turbo-16k"
      case Gpt4 => "gpt-4"
    }
  }

  /** The integer fields of a `MODEL_INFO` entry: the context size and the
      largest prompt the code sends to the model. */
  datatype ModelInfo = ModelInfo(tokenLimit: int, promptTokenLimit: int)

  /** The keys of `MODEL_INFO`, in insertion order. */
  const ModelTable: seq<ModelName> := [Gpt35Turbo4K, Gpt35Turbo16K, Gpt4]

  function Info(model: ModelName): (info: ModelInfo)
    ensures 0 < info.promptTokenLimit < info.tokenLimit
  {
    match model
    case Gpt35Turbo4K => ModelInfo(4096, 3000)
    case Gpt35Turbo16K => ModelInfo(16385, 12000)
    case Gpt4 => ModelInfo(8192, 6000)
  }

  /** `BIGGEST_MODEL`: the info record of the 16K model. */
  const BiggestModel: ModelInfo := Info(Gpt35Turbo16K)

  /** `len(encoding.encode(prompt))` under the model's tiktoken encoding. */
  type Encoder = (string, ModelName) -> nat

  /** `get_tokens_len`: the encoded length padded by a buffer of 100. */
  function TokensLen(encode: Encoder, prompt: string, model: ModelName): (n: nat)
    ensures n >= 100 && n - 100 == encode(prompt, model)
  {
    encode(prompt, model) + 100
  }

  /** `if min_response_token_length:` — `None` and `0` are both false. */
  predicate Truthy(minResponse: Option<int>) {
    minResponse.Some? && minResponse.value != 0
  }

  /** What the selection returns first: a model name, or, in the fallback,
      the `BIGGEST_MODEL` info record itself. */
  datatype Choice = Named(model: ModelName) | Record(info: ModelInfo)

  /** The test the scan applies to a table row: the prompt fits, and when a
      minimum response length is asked for, the rest of the context holds
      it. */
  predicate Fits(encode: Encoder, prompt: string, minResponse: Option<int>, model: ModelName) {
    var len := TokensLen(encode, prompt, model);
    Info(model).promptTokenLimit >= len
      && (Truthy(minResponse) ==> minResponse.value <= Info(model).tokenLimit - len)
  }

  /** The scan over the table from row `k`, and the fallback after it. */
  function ScanFrom(encode: Encoder, prompt: string, minResponse: Option<int>, k: nat): (Choice, int)
    requires k <= |ModelTable|
    decreases |ModelTable| - k
  {
    if k == |ModelTable| then
      (Record(BiggestModel), BiggestModel.tokenLimit - TokensLen(encode, prompt, ModelTable[|ModelTable| - 1]))
    else
      var m := ModelTable[k];
      if Fits(encode, prompt, minResponse, m) then (Named(m), Info(m).tokenLimit - TokensLen(encode, prompt, m))
      else ScanFrom(encode, prompt, minResponse, k + 1)
  }

  /** `get_model_max_token_from_prompt`: the requested model when the prompt
      fits it and no minimum is asked for; otherwise the scan. */
  function Selection(encode: Encoder, prompt: string, minResponse: Option<int>, model: ModelName): (Choice, int) {
    var len := TokensLen(encode, prompt, model);
    if Info(model).promptTokenLimit >= len && !Truthy(minResponse) then
      (Named(model), Info(model).tokenLimit - len)
    else ScanFrom(encode, prompt, minResponse, 0)
  }

  method GetModelMaxTokenFromPrompt(encode: Encoder, prompt: string,
                                    minResponseTokenLength: Option<int> := None,
                                    model: ModelName := Gpt35Turbo4K)
    returns (choice: Choice, maxTokens: int)
    ensures (choice, maxTokens) == Selection(encode, prompt, minResponseTokenLength, model)
  {
    var tokenLen := TokensLen(encode, prompt, model);
    if Info(model).promptTokenLimit >= tokenLen && !Truthy(minResponseTokenLength) {
      return Named(model), Info(model).tokenLimit - tokenLen;
    }
    var k := 0;
    while k < |ModelTable|
      invariant k <= |ModelTable|
      invariant ScanFrom(encode, prompt, minResponseTokenLength, 0) == ScanFrom(encode, prompt, minResponseTokenLength, k)
      invariant k > 0 ==> tokenLen == TokensLen(encode, prompt, ModelTable[k - 1])
    {
      var modelName := ModelTable[k];
      var modelInfo := Info(modelName);
      tokenLen := TokensLen(encode, prompt, modelName);
      if Truthy(minResponseTokenLength) {
        if modelInfo.promptTokenLimit >= tokenLen
          && minResponseTokenLength.value <= modelInfo.tokenLimit - tokenLen {
          return Named(modelName), modelInfo.tokenLimit - tokenLen;
        }
      } else if modelInfo.promptTokenLimit >= tokenLen {
        return Named(modelName), modelInfo.tokenLimit - tokenLen;
      }
      k := k + 1;
    }
    return Record(BiggestModel), BiggestModel.tokenLimit - tokenLen;
  }

  /** The scan from row `k` returns the first row at or after `k` that fits,
      with its remaining context, or, when none does, the fallback. */
  lemma {:induction false} ScanFirstFit(encode: Encoder, prompt: string, minResponse: Option<int>, k: nat)
    requires k <= |ModelTable|
    decreases |ModelTable| - k
    ensures ScanFrom(encode, prompt, minResponse, k).0.Named? ==>
      exists j :: k <= j < |ModelTable|
        && ScanFrom(encode, prompt, minResponse, k).0.model == ModelTable[j]
        && Fits(encode, prompt, minResponse, ModelTable[j])
        && (forall i :: k <= i < j ==> !Fits(encode, prompt, minResponse, ModelTable[i]))
    ensures ScanFrom(encode, prompt, minResponse, k).0.Record? ==>
      forall i :: k <= i < |ModelTable| ==> !Fits(encode, prompt, minResponse, ModelTable[i])
  {
    if k < |ModelTable| && !Fits(encode, prompt, minResponse, ModelTable[k]) {
      ScanFirstFit(encode, prompt, minResponse, k + 1);
    }
  }

  /** What the selection promises. A returned model name comes with the
      context left after the padded prompt, which is positive and, when a
      minimum is asked for, at least that minimum; it is the requested model
      (prompt fits, no minimum) or else the first table row in order 4K, 16K,
      8K that fits. Otherwise no row fits and the 16K info record comes back,
      with 16385 minus the padded length counted for the last row scanned. */
  lemma SelectionMeets(encode: Encoder, prompt: string, minResponse: Option<int>, model: ModelName)
    ensures var (choice, budget) := Selection(encode, prompt, minResponse, model);
      && (choice.Named? ==>
            && budget == Info(choice.model).tokenLimit - TokensLen(encode, prompt, choice.model)
            && budget > 0
            && (Truthy(minResponse) ==> budget >= minResponse.value))
      && (choice.Named?
          && !(Info(model).promptTokenLimit >= TokensLen(encode, prompt, model) && !Truthy(minResponse)) ==>
            exists j :: 0 <= j < |ModelTable| && choice.model == ModelTable[j]
              && Fits(encode, prompt, minResponse, ModelTable[j])
              && forall i :: 0 <= i < j ==> !Fits(encode, prompt, minResponse, ModelTable[i]))
      && (choice.Record? ==>
            && choice.info == Info(Gpt35Turbo16K)
            && budget == 16385 - TokensLen(encode, prompt, Gpt4)
            && forall i :: 0 <= i < |ModelTable| ==> !Fits(encode, prompt, minResponse, ModelTable[i]))
  {
    ScanFirstFit(encode, prompt, minResponse, 0);
    var len := TokensLen(encode, prompt, model);
    if !(Info(model).promptTokenLimit >= len && !Truthy(minResponse)) {
      var (choice, budget) := ScanFrom(encode, prompt, minResponse, 0);
      if choice.Named? {
        var j :| 0 <= j < |ModelTable| && choice.model == ModelTable[j]
          && Fits(encode, prompt, minResponse, ModelTable[j])
          && (forall i :: 0 <= i < j ==> !Fits(encode, prompt, minResponse, ModelTable[i]));
        ScanStopsAt(encode, prompt, minResponse, 0, j);
      }
    }
  }

  /** The scan from row `k` reaching row `j`, which fits, stops there. */
  lemma {:induction false} ScanStopsAt(encode: Encoder, prompt: string, minResponse: Option<int>, k: nat, j: nat)
    requires k <= j < |ModelTable| && Fits(encode, prompt, minResponse, ModelTable[j])
    requires forall i :: k <= i < j ==> !Fits(encode, prompt, minResponse, ModelTable[i])
    ensures ScanFrom(encode, prompt, minResponse, k)
      == (Named(ModelTable[j]), Info(ModelTable[j]).tokenLimit - TokensLen(encode, prompt, ModelTable[j]))
    decreases j - k
  {
    if k < j {
      ScanStopsAt(encode, prompt, minResponse, k + 1, j);
    }
  }

  /** The requested model is kept whenever the prompt fits it and no
      minimum response length is asked for. */
  lemma RequestedModelKept(encode: Encoder, prompt: string, minResponse: Option<int>, model: ModelName)
    requires Info(model).promptTokenLimit >= TokensLen(encode, prompt, model) && !Truthy(minResponse)
    ensures Selection(encode, prompt, minResponse, model).0 == Named(model)
    ensures Selection(encode, prompt, minResponse, model).1 > 0
  {
  }

  /** A minimum of `0` selects exactly as no minimum. */
  lemma ZeroMinimumIsNone(encode: Encoder, prompt: string, model: ModelName)
    ensures Selection(encode, prompt, Some(0), model) == Selection(encode, prompt, None, model)
  {
    assert forall m :: Fits(encode, prompt, Some(0), m) == Fits(encode, prompt, None, m);
    ScanSameFits(encode, prompt, Some(0), None, 0);
  }

  /** Two minimums that pass and fail the same rows scan alike. */
  lemma {:induction false} ScanSameFits(encode: Encoder, prompt: string, a: Option<int>, b: Option<int>, k: nat)
    requires k <= |ModelTable|
    requires forall m :: Fits(encode, prompt, a, m) == Fits(encode, prompt, b, m)
    ensures ScanFrom(encode, prompt, a, k) == ScanFrom(encode, prompt, b, k)
    decreases |ModelTable| - k
  {
    if k < |ModelTable| {
      ScanSameFits(encode, prompt, a, b, k + 1);
    }
  }
}
