/**
 * The encryption demo page (frontend/src/components/SecurityVisualizer.js):
 * the step-through of five AES stages, the toy "Round 1" byte transform it
 * displays, and the encrypt / decrypt / reset handlers of the page state.
 * Web Crypto calls are random and asynchronous, so their results are
 * parameters (`None` when the call throws).
 */
module SecurityVisualizer {
  import opened Types

  /** The five entries of `transformations`. */
  const STEP_COUNT: nat := 5
  const LAST_STEP: nat := STEP_COUNT - 1

  /** A step index the stepper can show. */
  predicate InRange(step: int) {
    0 <= step <= LAST_STEP
  }

  /** `handleNext`: `Math.min(prev + 1, transformations.length - 1)`. */
  function Next(step: int): (r: int)
    ensures step < LAST_STEP ==> r == step + 1
    ensures step >= LAST_STEP ==> r == LAST_STEP
  {
    if step + 1 < LAST_STEP then step + 1 else LAST_STEP
  }

  /** `handlePrev`: `Math.max(prev - 1, 0)`. */
  function Prev(step: int): (r: int)
    ensures step > 0 ==> r == step - 1
    ensures step <= 0 ==> r == 0
  {
    if step - 1 > 0 then step - 1 else 0
  }

  /** Stepping back undoes stepping forward except at the last stage, and vice versa at the first. */
  lemma NextPrevInverse(step: int)
    requires InRange(step)
    ensures step < LAST_STEP ==> Prev(Next(step)) == step
    ensures step > 0 ==> Next(Prev(step)) == step
    ensures Next(LAST_STEP) == LAST_STEP && Prev(0) == 0
  {
  }

  datatype Click = NextClick | PrevClick

  function Press(step: int, c: Click): int {
    match c
    case NextClick => Next(step)
    case PrevClick => Prev(step)
  }

  function PressAll(step: int, clicks: seq<Click>): int
    decreases clicks
  {
    if clicks == [] then step else PressAll(Press(step, clicks[0]), clicks[1..])
  }

  /** From any in-range step, every sequence of clicks stays on a stage that exists. */
  lemma {:induction false} ClicksStayInRange(step: int, clicks: seq<Click>)
    requires InRange(step)
    ensures InRange(PressAll(step, clicks))
    decreases clicks
  {
    if clicks != [] {
      ClicksStayInRange(Press(step, clicks[0]), clicks[1..]);
    }
  }

  /** Enough forward clicks reach the last stage from anywhere in range. */
  lemma {:induction false} ForwardReachesLast(step: int, clicks: seq<Click>)
    requires InRange(step)
    requires |clicks| >= LAST_STEP - step
    requires forall i :: 0 <= i < |clicks| ==> clicks[i] == NextClick
    ensures PressAll(step, clicks) == LAST_STEP
    decreases clicks
  {
    if clicks != [] {
      ForwardReachesLast(Next(step), clicks[1..]);
    }
  }

  /** `Array(16).fill(0)`, shown when there is no input. */
  const ZERO_BLOCK: Bytes := [0, 0, 0, 0, 0, 0, 0, 0, 0, 0, 0, 0, 0, 0, 0, 0]

  /** `data ? Array.from(data) : Array(16).fill(0)`, with `data` the UTF-8 bytes of the first 16 characters. */
  function BlockBytes(data: Option<Bytes>): (r: Bytes)
    ensures data.None? ==> r == ZERO_BLOCK
    ensures data.Some? ==> r == data.value
  {
    if data.Some? then data.value else ZERO_BLOCK
  }

  const ROUND1_OFFSET: nat := 0x63

  /** The "Round 1/10" display: `bytes.map(b => (b + 0x63) % 256)`. */
  function Round1(bytes: Bytes): (r: Bytes)
    ensures |r| == |bytes|
    ensures forall i :: 0 <= i < |r| ==> r[i] == (bytes[i] + ROUND1_OFFSET) % 256
  {
    seq(|bytes|, i requires 0 <= i < |bytes| => (bytes[i] + ROUND1_OFFSET) % 256)
  }

  /** Subtracting the offset modulo 256: the reference inverse of `Round1`. */
  function UndoRound1(bytes: Bytes): (r: Bytes)
    ensures |r| == |bytes|
    ensures forall i :: 0 <= i < |r| ==> (r[i] + ROUND1_OFFSET) % 256 == bytes[i]
  {
    seq(|bytes|, i requires 0 <= i < |bytes| => (bytes[i] + 256 - ROUND1_OFFSET) % 256)
  }

  /** The displayed transform loses nothing: it is a bijection on byte blocks. */
  lemma Round1Bijective(bytes: Bytes)
    ensures UndoRound1(Round1(bytes)) == bytes
    ensures Round1(UndoRound1(bytes)) == bytes
  {
    var u := UndoRound1(Round1(bytes));
    var v := Round1(UndoRound1(bytes));
    forall i | 0 <= i < |bytes|
      ensures u[i] == bytes[i] && v[i] == bytes[i]
    {
      ByteOffsetInverse(bytes[i]);
    }
  }

  /** Adding the offset and subtracting it, modulo 256, undo each other on one byte. */
  lemma ByteOffsetInverse(b: Byte)
    ensures ((b + ROUND1_OFFSET) % 256 + 256 - ROUND1_OFFSET) % 256 == b
    ensures ((b + 256 - ROUND1_OFFSET) % 256 + ROUND1_OFFSET) % 256 == b
  {
    if b + ROUND1_OFFSET < 256 {
      assert (b + ROUND1_OFFSET) % 256 == b + ROUND1_OFFSET;
    } else {
      assert (b + ROUND1_OFFSET) % 256 == b + ROUND1_OFFSET - 256;
    }
    if b >= ROUND1_OFFSET {
      assert (b + 256 - ROUND1_OFFSET) % 256 == b - ROUND1_OFFSET;
    } else {
      assert (b + 256 - ROUND1_OFFSET) % 256 == b + 256 - ROUND1_OFFSET;
    }
  }

  /** Two blocks with the same display are the same block. */
  lemma Round1Injective(a: Bytes, b: Bytes)
    requires Round1(a) == Round1(b)
    ensures a == b
  {
    Round1Bijective(a);
    Round1Bijective(b);
  }

  /** The Web Crypto `CryptoKey`, kept opaque. */
  datatype Key = Key(material: Bytes)

  /** The page's `state` object and its `inputText`. */
  datatype Page = Page(
    inputText: string,
    encryptedText: string,
    decryptedText: string,
    key: Option<Key>,
    iv: Option<Bytes>,
    isProcessing: bool)

  const INITIAL := Page("", "", "", None, None, false)

  /** What a successful encryption produces: the Base64 ciphertext, the key and the IV. */
  datatype Encryption = Encryption(base64: string, key: Key, iv: Bytes)

  /**
   * `handleEncrypt`: nothing happens for empty input; otherwise
   * `isProcessing` is set, and only a successful encryption clears it again.
   */
  function HandleEncrypt(p: Page, result: Option<Encryption>): (r: Page)
    ensures p.inputText == "" ==> r == p
    ensures p.inputText != "" && result.None? ==> r == p.(isProcessing := true)
    ensures p.inputText != "" && result.Some? ==>
      && r.inputText == p.inputText
      && r.encryptedText == result.value.base64
      && r.key == Some(result.value.key) && r.iv == Some(result.value.iv)
      && r.decryptedText == "" && !r.isProcessing
  {
    if p.inputText == "" then p
    else
      var busy := p.(isProcessing := true);
      match result
      case None => busy
      case Some(e) =>
        busy.(encryptedText := e.base64, key := Some(e.key), iv := Some(e.iv), decryptedText := "", isProcessing := false)
  }

  /** `handleDecrypt`: no guard of its own beyond the button's; a failure leaves `isProcessing` set. */
  function HandleDecrypt(p: Page, result: Option<string>): (r: Page)
    ensures result.None? ==> r == p.(isProcessing := true)
    ensures result.Some? ==> r == p.(decryptedText := result.value, isProcessing := false)
  {
    match result
    case None => p.(isProcessing := true)
    case Some(text) => p.(decryptedText := text, isProcessing := false)
  }

  /** `handleReset`: the input and every field return to the initial state. */
  function HandleReset(p: Page): (r: Page)
    ensures r == INITIAL
  {
    Page("", "", "", None, None, false)
  }

  /** The page's controls: the input's `onChange`, the two buttons, and the reset icon. */
  datatype Action =
    | Type(text: string)
    | EncryptClick(encryption: Option<Encryption>)
    | DecryptClick(plaintext: Option<string>)
    | ResetClick

  /**
   * The `disabled` props: Encrypt needs input and Decrypt a ciphertext, and
   * both need an idle page; typing and Reset are always live.
   */
  predicate Enabled(p: Page, a: Action) {
    match a
    case EncryptClick(_) => p.inputText != "" && !p.isProcessing
    case DecryptClick(_) => p.encryptedText != "" && !p.isProcessing
    case _ => true
  }

  /** One user action; a click on a disabled button does nothing. */
  function Act(p: Page, a: Action): (r: Page)
    ensures !Enabled(p, a) ==> r == p
  {
    if !Enabled(p, a) then p
    else
      match a
      case Type(text) => p.(inputText := text)
      case EncryptClick(result) => HandleEncrypt(p, result)
      case DecryptClick(result) => HandleDecrypt(p, result)
      case ResetClick => HandleReset(p)
  }

  function Session(p: Page, actions: seq<Action>): Page
    decreases actions
  {
    if actions == [] then p else Session(Act(p, actions[0]), actions[1..])
  }

  /**
   * A busy page keeps both buttons disabled, so until Reset is clicked
   * nothing but the typed input changes and the page stays busy.
   */
  lemma {:induction false} BusyUntilReset(p: Page, actions: seq<Action>)
    requires p.isProcessing
    requires forall i :: 0 <= i < |actions| ==> !actions[i].ResetClick?
    ensures Session(p, actions).isProcessing
    ensures Session(p, actions) == p.(inputText := Session(p, actions).inputText)
    decreases actions
  {
    if actions != [] {
      var q := Act(p, actions[0]);
      assert q == p.(inputText := q.inputText);
      BusyUntilReset(q, actions[1..]);
    }
  }

  /**
   * A Web Crypto call that throws, from either enabled button, locks the
   * page: no later action but Reset makes it idle again, and Reset always does.
   */
  lemma FailedCallLocksPage(p: Page, a: Action, actions: seq<Action>)
    requires a == EncryptClick(None) || a == DecryptClick(None)
    requires Enabled(p, a)
    requires forall i :: 0 <= i < |actions| ==> !actions[i].ResetClick?
    ensures Session(Act(p, a), actions).isProcessing
    ensures Session(Act(p, a), actions).encryptedText == p.encryptedText
    ensures Session(Act(p, a), actions).decryptedText == p.decryptedText
    ensures !Act(Session(Act(p, a), actions), ResetClick).isProcessing
  {
    BusyUntilReset(Act(p, a), actions);
  }

  /** Web Crypto's AES-CBC, with the UTF-8 and Base64 conversions around it folded in. */
  datatype WebCrypto = WebCrypto(encrypt: (Key, Bytes, string) -> string, decrypt: (Key, Bytes, string) -> Option<string>)

  /**
   * Decrypting under the key and IV that encrypted gives the text back, and
   * a ciphertext is never empty (CBC padding adds at least one block).
   */
  ghost predicate Sound(c: WebCrypto) {
    forall k, iv, text :: c.decrypt(k, iv, c.encrypt(k, iv, text)) == Some(text) && c.encrypt(k, iv, text) != ""
  }

  /** What `handleDecrypt` gets for the page's state; a missing key or IV makes the call throw. */
  function DecryptResult(c: WebCrypto, p: Page): (r: Option<string>)
    ensures p.key.None? || p.iv.None? ==> r.None?
  {
    if p.key.None? || p.iv.None? then None else c.decrypt(p.key.value, p.iv.value, p.encryptedText)
  }

  /**
   * Encrypt, then Decrypt: with any key and IV, Decrypt is enabled after a
   * successful encryption, shows the typed text again and leaves the page idle.
   */
  lemma EncryptThenDecrypt(p: Page, c: WebCrypto, k: Key, iv: Bytes)
    requires Sound(c)
    requires p.inputText != "" && !p.isProcessing
    ensures var q := Act(p, EncryptClick(Some(Encryption(c.encrypt(k, iv, p.inputText), k, iv))));
      && Enabled(q, DecryptClick(None))
      && var d := Act(q, DecryptClick(DecryptResult(c, q)));
         && d.decryptedText == p.inputText
         && d.encryptedText == q.encryptedText
         && !d.isProcessing
  {
    var q := Act(p, EncryptClick(Some(Encryption(c.encrypt(k, iv, p.inputText), k, iv))));
    assert q.encryptedText == c.encrypt(k, iv, p.inputText);
    assert DecryptResult(c, q) == Some(p.inputText);
  }

  /** The stepper's own state and the ciphertext it last saw. */
  datatype Stepper = Stepper(currentStep: int, seenCiphertext: string)

  /** The `useEffect` on `state.encryptedText`: the step returns to 0 only when the ciphertext changes. */
  function Render(s: Stepper, p: Page): (r: Stepper)
    ensures r.seenCiphertext == p.encryptedText
    ensures p.encryptedText != s.seenCiphertext ==> r.currentStep == 0
    ensures p.encryptedText == s.seenCiphertext ==> r.currentStep == s.currentStep
  {
    if p.encryptedText != s.seenCiphertext then Stepper(0, p.encryptedText) else s
  }

  /**
   * Reset rewinds the stepper only if there was a ciphertext: before any
   * encryption, the stage the user stepped to survives a reset.
   */
  lemma ResetRewindsOnlyAfterEncrypt(s: Stepper, p: Page)
    requires s.seenCiphertext == p.encryptedText
    ensures p.encryptedText != "" ==> Render(s, HandleReset(p)).currentStep == 0
    ensures p.encryptedText == "" ==> Render(s, HandleReset(p)).currentStep == s.currentStep
  {
  }

  /** A successful encryption with a new ciphertext always starts the walk-through at the first stage. */
  lemma NewCiphertextRewinds(s: Stepper, p: Page, e: Encryption)
    requires s.seenCiphertext == p.encryptedText && p.inputText != ""
    requires e.base64 != p.encryptedText
    ensures Render(s, HandleEncrypt(p, Some(e))).currentStep == 0
  {
  }
}
