/** The host-wide automatic start/stop defaults that `-m -H` sends to every host. */
module AutoStart {
  import opened Wrappers
  import opened Errors
  import opened Text

  /** The defaults record; a field left `None` is not set, so the host keeps its own value. */
  datatype AutoStartDefaults = AutoStartDefaults(
    enabled: bool,
    startDelay: Option<int>,
    stopDelay: Option<int>,
    stopAction: Option<string>,
    waitForHeartbeat: bool)

  /** A delay option: set only when auto start is enabled and the option text is non-empty,
      and then converted with `int`. */
  function OptionalDelay(isEnabled: bool, delay: Option<string>): (r: Result<Option<int>, Error>)
    ensures !(isEnabled && Truthy(delay)) ==> r == Ok(None)
    ensures isEnabled && Truthy(delay) ==>
              (r.Ok? <==> ParseInt(delay.value).Some?) &&
              (r.Ok? ==> r.value == ParseInt(delay.value)) &&
              (r.Err? ==> r.error == InvalidInteger(delay.value))
  {
    if isEnabled && Truthy(delay) then
      match ParseInt(delay.value)
      case Some(n) => Ok(Some(n))
      case None => Err(InvalidInteger(delay.value))
    else Ok(None)
  }

  /** Builds the defaults record: enabled and heartbeat always set; start delay, stop delay and
      stop action only when enabled and given non-empty. The start delay is converted first. */
  function HostAutoStartDefaults(
    isEnabled: bool,
    startDelay: Option<string>,
    stopDelay: Option<string>,
    stopAction: Option<string>,
    waitForHeartbeat: bool): (r: Result<AutoStartDefaults, Error>)
    ensures r.Ok? <==> OptionalDelay(isEnabled, startDelay).Ok? && OptionalDelay(isEnabled, stopDelay).Ok?
    ensures OptionalDelay(isEnabled, startDelay).Err? ==> r == Err(InvalidInteger(startDelay.value))
    ensures OptionalDelay(isEnabled, startDelay).Ok? && OptionalDelay(isEnabled, stopDelay).Err? ==>
              r == Err(InvalidInteger(stopDelay.value))
    ensures r.Ok? ==>
              r.value.enabled == isEnabled && r.value.waitForHeartbeat == waitForHeartbeat &&
              r.value.startDelay == OptionalDelay(isEnabled, startDelay).value &&
              r.value.stopDelay == OptionalDelay(isEnabled, stopDelay).value &&
              (r.value.stopAction.Some? <==> isEnabled && Truthy(stopAction)) &&
              (r.value.stopAction.Some? ==> r.value.stopAction == stopAction)
  {
    var start :- OptionalDelay(isEnabled, startDelay);
    var stop :- OptionalDelay(isEnabled, stopDelay);
    Ok(AutoStartDefaults(
      isEnabled,
      start,
      stop,
      if isEnabled && Truthy(stopAction) then stopAction else None,
      waitForHeartbeat))
  }

  /** With auto start disabled nothing is converted, so the build never fails, and only the two
      switches are set. */
  lemma DisabledSetsOnlySwitches(startDelay: Option<string>, stopDelay: Option<string>,
                                 stopAction: Option<string>, waitForHeartbeat: bool)
    ensures HostAutoStartDefaults(false, startDelay, stopDelay, stopAction, waitForHeartbeat) ==
              Ok(AutoStartDefaults(false, None, None, None, waitForHeartbeat))
  {
  }

  /** Delays written as decimal numbers come back as those numbers. */
  lemma DelaysRoundTrip(startDelay: int, stopDelay: int, stopAction: string, waitForHeartbeat: bool)
    requires stopAction != ""
    ensures HostAutoStartDefaults(true, Some(FormatInt(startDelay)), Some(FormatInt(stopDelay)),
                                  Some(stopAction), waitForHeartbeat) ==
              Ok(AutoStartDefaults(true, Some(startDelay), Some(stopDelay), Some(stopAction),
                                   waitForHeartbeat))
  {
    ParseFormatInt(startDelay);
    ParseFormatInt(stopDelay);
    assert Truthy(Some(FormatInt(startDelay))) by {
      assert FormatInt(startDelay) != "" by { FormatIntNonEmpty(startDelay); }
    }
    assert Truthy(Some(FormatInt(stopDelay))) by {
      assert FormatInt(stopDelay) != "" by { FormatIntNonEmpty(stopDelay); }
    }
  }

  lemma FormatIntNonEmpty(n: int)
    ensures FormatInt(n) != ""
  {
    ParseFormatInt(n);
  }
}
