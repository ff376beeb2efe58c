/**
 Transmit power (gw-dev/usb/rak2287.cpp, `getTxGainLutIndex` and the power step of
 `enqueueTxPacket`): the entry of the gain table closest to, and not above, the requested power.
 */
module TxGain {

  /** Powers are signed bytes. */
  type Power = p: int | -128 <= p < 128

  /** `i` is the first entry with the greatest power not above the request. */
  predicate IsBest(lut: seq<Power>, request: Power, i: nat) {
    && i < |lut| && lut[i] <= request
    && (forall j :: 0 <= j < |lut| && lut[j] <= request ==> lut[j] <= lut[i])
    && (forall j :: 0 <= j < i ==> lut[j] != lut[i])
  }

  predicate NoneFits(lut: seq<Power>, request: Power) {
    forall j :: 0 <= j < |lut| ==> lut[j] > request
  }

  lemma BestIsUnique(lut: seq<Power>, request: Power, i: nat, j: nat)
    requires IsBest(lut, request, i) && IsBest(lut, request, j)
    ensures i == j
  {
    assert lut[i] <= lut[j] && lut[j] <= lut[i];
  }

  /** The table search; its best difference is kept in an unsigned byte. */
  method GetTxGainLutIndex(lut: seq<Power>, request: Power) returns (found: bool, index: nat)
    requires |lut| < 256
    ensures found ==> IsBest(lut, request, index)
    ensures !found ==> NoneFits(lut, request) && index == 0
  {
    var best := -1;
    var bestMatch := 0xFF;
    for k := 0 to |lut|
      invariant -1 <= best < k
      invariant best == -1 ==> forall j :: 0 <= j < k ==> lut[j] > request
      invariant best >= 0 ==> bestMatch == request - lut[best] && 0 <= bestMatch <= 255
      invariant best >= 0 ==> forall j :: 0 <= j < k && lut[j] <= request ==> lut[j] <= lut[best]
      invariant best >= 0 ==> forall j :: 0 <= j < best ==> lut[j] != lut[best]
    {
      var diff := request - lut[k];
      if diff >= 0 {
        if best == -1 || diff < bestMatch {
          bestMatch := diff % 256;
          best := k;
        }
      }
    }
    if best > -1 { return true, best; }
    return false, 0;
  }

  /** The power a packet is sent with: exact, or replaced with a warning. */
  method PowerStep(lut: seq<Power>, request: Power) returns (power: Power, warning: bool)
    requires 0 < |lut| < 256
    ensures power in lut
    ensures power <= request <==> !NoneFits(lut, request)
    ensures power <= request ==> forall j :: 0 <= j < |lut| && lut[j] <= request ==> lut[j] <= power
    ensures power > request ==> power == lut[0]
    ensures warning <==> power != request
    ensures warning <==> request !in lut
  {
    var found, index := GetTxGainLutIndex(lut, request);
    power := request;
    warning := false;
    if lut[index] != request {
      warning := true;
      power := lut[index];
    }
  }
}
