/** The settings and data accessors of src/utils/storage.js. The extension's
    chrome.storage.local area is a map from key to stored value; whether a
    read or a write of it fails is an input. The getters only read (they are
    functions of the stored map); the setter validates its argument before
    it writes. */
module Storage {
  import opened JsNumbers
  import opened JsValues

  const TabsDataKey: string := "inactiveTabsData"
  const ThresholdKey: string := "inactiveThreshold"

  /** The threshold, in seconds, used when none valid is stored */
  const DefaultThreshold: JsValue := Num(Finite(10.0))

  /** Whether chrome.storage.local.get resolves or rejects */
  datatype ReadOutcome = ReadOk | ReadFailed

  /** Whether chrome.storage.local.set resolves or rejects */
  datatype WriteOutcome = WriteOk | WriteFailed

  /** How the promise returned by setInactiveThreshold settles */
  datatype SetResult = Resolved | RejectedTypeError | RejectedWriteFailure

  /** result[key] after a get of key: undefined when nothing is stored */
  function Lookup(items: map<string, JsValue>, key: string): JsValue {
    if key in items then items[key] else Undefined
  }

  /** A number greater than zero, +Infinity included */
  predicate IsPositive(n: NumVal) {
    n.PosInf? || (n.Finite? && n.x > 0.0)
  }

  /** A number value greater than zero */
  predicate IsPositiveNumber(v: JsValue) {
    v.Num? && IsPositive(v.n)
  }

  /** What setInactiveThreshold accepts: a finite number greater than zero */
  predicate IsValidThreshold(v: JsValue) {
    v.Num? && v.n.Finite? && v.n.x > 0.0
  }

  /** storage.getInactiveTabsData(): the stored value when it is a plain
      object, otherwise (nothing stored, a falsy value, an array, any other
      non-object, or a failed read) an empty object */
  function GetInactiveTabsData(items: map<string, JsValue>, read: ReadOutcome): (r: JsValue)
    ensures r.Obj?
    ensures read.ReadOk? && Lookup(items, TabsDataKey).Obj? ==> r == items[TabsDataKey]
    ensures !(read.ReadOk? && Lookup(items, TabsDataKey).Obj?) ==> r == EmptyObject
  {
    if read.ReadFailed? then EmptyObject
    else
      var data := Or(Lookup(items, TabsDataKey), EmptyObject);
      if TypeOf(data) != "object" || IsArray(data) then EmptyObject
      else data
  }

  /** storage.getInactiveThreshold(): the stored value when it is a number
      greater than zero, otherwise (nothing stored, a falsy value such as 0
      or NaN, a non-number, a number not above zero, or a failed read) 10.
      +Infinity is passed through: no finiteness check is made. */
  function GetInactiveThreshold(items: map<string, JsValue>, read: ReadOutcome): (r: JsValue)
    ensures r.Num? && IsPositive(r.n)
    ensures read.ReadOk? && IsPositiveNumber(Lookup(items, ThresholdKey)) ==> r == items[ThresholdKey]
    ensures !(read.ReadOk? && IsPositiveNumber(Lookup(items, ThresholdKey))) ==> r == DefaultThreshold
  {
    if read.ReadFailed? then DefaultThreshold
    else
      var threshold := Or(Lookup(items, ThresholdKey), DefaultThreshold);
      if TypeOf(threshold) != "number" || LessEq(threshold.n, Finite(0.0)) then DefaultThreshold
      else threshold
  }

  /** The values the threshold getter passes through are exactly the valid
      setter arguments plus +Infinity */
  lemma GetterAcceptsValidThresholds(items: map<string, JsValue>)
    ensures ThresholdKey in items ==>
      (GetInactiveThreshold(items, ReadOk) == items[ThresholdKey] <==>
         IsValidThreshold(items[ThresholdKey]) || items[ThresholdKey] == Num(PosInf))
  {
  }

  /** setInactiveThreshold(s) for a valid s followed by getInactiveThreshold()
      gives back s */
  lemma ThresholdRoundTrip(items: map<string, JsValue>, seconds: JsValue)
    requires IsValidThreshold(seconds)
    ensures GetInactiveThreshold(items[ThresholdKey := seconds], ReadOk) == seconds
  {
  }

  /** chrome.storage.local for this extension */
  class LocalStore {
    var items: map<string, JsValue>

    constructor (initial: map<string, JsValue>)
      ensures items == initial
    {
      items := initial;
    }

    /** storage.setInactiveThreshold(seconds): rejects with a TypeError,
        writing nothing, unless seconds is a finite number above zero;
        otherwise stores it under inactiveThreshold (when the write succeeds) */
    method SetInactiveThreshold(seconds: JsValue, write: WriteOutcome) returns (r: SetResult)
      modifies this
      ensures !IsValidThreshold(seconds) ==> r == RejectedTypeError && items == old(items)
      ensures IsValidThreshold(seconds) && write.WriteOk? ==>
                r == Resolved && items == old(items)[ThresholdKey := seconds]
      ensures IsValidThreshold(seconds) && write.WriteFailed? ==>
                r == RejectedWriteFailure && items == old(items)
    {
      if TypeOf(seconds) != "number" || LessEq(seconds.n, Finite(0.0)) || !IsFinite(seconds.n) {
        return RejectedTypeError;
      }
      if write.WriteFailed? {
        return RejectedWriteFailure;
      }
      items := items[ThresholdKey := seconds];
      r := Resolved;
    }

    /** setInactiveThreshold(seconds) then getInactiveThreshold(): a threshold
        that was accepted is read back unchanged; a rejected one leaves the
        value read before the call */
    method SetThenGetThreshold(seconds: JsValue) returns (r: SetResult, got: JsValue)
      modifies this
      ensures r == Resolved <==> IsValidThreshold(seconds)
      ensures r == Resolved ==> got == seconds
      ensures r != Resolved ==> got == GetInactiveThreshold(old(items), ReadOk) && items == old(items)
    {
      r := SetInactiveThreshold(seconds, WriteOk);
      got := GetInactiveThreshold(items, ReadOk);
    }
  }
}
