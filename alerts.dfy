/**
 * The bounded list of alerts kept in the user's session
 * (alertManager/AlertManager.go, with the types of alertManager/model.go).
 *
 * The session is a map from key to stored value. A stored value is a list of
 * alerts, Go's nil, or a value of some other Go type; the last is what the
 * type assertion in getAlertsFromSession rejects.
 */
module AlertManager {

  /** The CSS class of an alert. Go's AlertType is a string type, so any string is one; the constants are the ones in use. */
  type AlertType = string

  const AlertPrimary: AlertType := "alert-primary"
  const AlertSecondary: AlertType := "alert-secondary"
  const AlertSuccess: AlertType := "alert-success"
  const AlertDanger: AlertType := "alert-danger"
  const AlertWarning: AlertType := "alert-warning"
  const AlertInfo: AlertType := "alert-info"
  const AlertLight: AlertType := "alert-light"
  const AlertDark: AlertType := "alert-dark"

  datatype Alert = Alert(typ: AlertType, message: string)

  const SessionKey: string := "alerts"

  /** The most alerts AddAlert keeps. */
  const MaxAlerts: nat := 10

  datatype SessionValue = AlertList(alerts: seq<Alert>) | Nil | OtherValue(goType: string)

  type SessionValues = map<string, SessionValue>

  /** What getAlertsFromSession returns: the list, or the error of a failed type assertion (with a nil list). */
  datatype AlertsRead = Read(alerts: seq<Alert>) | WrongType

  /** A missing or nil value reads as the empty list; a value of another type is an error. */
  function AlertsFromSession(values: SessionValues): (r: AlertsRead)
    ensures r.WrongType? <==> SessionKey in values && values[SessionKey].OtherValue?
    ensures SessionKey !in values || values[SessionKey].Nil? ==> r == Read([])
    ensures SessionKey in values && values[SessionKey].AlertList? ==> r == Read(values[SessionKey].alerts)
  {
    if SessionKey !in values then Read([])
    else match values[SessionKey]
      case Nil => Read([])
      case AlertList(alerts) => Read(alerts)
      case OtherValue(_) => WrongType
  }

  /** The stored alerts, or the empty list when there are none or the stored value has the wrong type (the error is only logged). */
  function GetAlerts(values: SessionValues): (alerts: seq<Alert>)
    ensures SessionKey in values && values[SessionKey].AlertList? ==> alerts == values[SessionKey].alerts
    ensures SessionKey !in values || !values[SessionKey].AlertList? ==> alerts == []
  {
    match AlertsFromSession(values)
    case Read(alerts) => alerts
    case WrongType => []
  }

  /**
   * The list AddAlert stores: the new alert last, after the newest of the old
   * ones; the oldest one is dropped once there are MaxAlerts or more.
   */
  function AppendBounded(alerts: seq<Alert>, a: Alert): (r: seq<Alert>)
    ensures |r| == if |alerts| < MaxAlerts then |alerts| + 1 else |alerts|
    ensures r[|r| - 1] == a
    ensures r[..|r| - 1] == alerts[|alerts| + 1 - |r|..]
    ensures |alerts| <= MaxAlerts ==> |r| <= MaxAlerts
  {
    (if |alerts| >= MaxAlerts then alerts[1..] else alerts) + [a]
  }

  /** The user's session store. */
  class Session {
    var values: SessionValues

    constructor (values: SessionValues)
      ensures this.values == values
    {
      this.values := values;
    }
  }

  /** Reads the alert list (the empty list on a wrong-typed value), drops the oldest if full, appends, and stores it. */
  method AddAlert(session: Session, msg: string, typ: AlertType)
    modifies session
    ensures session.values == old(session.values)[SessionKey := AlertList(AppendBounded(GetAlerts(old(session.values)), Alert(typ, msg)))]
  {
    var read := AlertsFromSession(session.values);
    var alerts := if read.Read? then read.alerts else [];
    if |alerts| >= MaxAlerts {
      alerts := alerts[1..];
    }
    alerts := alerts + [Alert(typ, msg)];
    session.values := session.values[SessionKey := AlertList(alerts)];
  }

  /** Deletes the alert list from the session. */
  method ClearAlerts(session: Session)
    modifies session
    ensures session.values == old(session.values) - {SessionKey}
  {
    session.values := session.values - {SessionKey};
  }

  // ---------------------------------------------------------------------------
  // What a later GetAlerts sees

  /**
   * After AddAlert, GetAlerts returns the older alerts kept in order with the
   * new one last; the list stays within MaxAlerts when it was within it, and a
   * wrong-typed value is replaced by a list holding only the new alert.
   */
  lemma AddAlertThenGet(values: SessionValues, a: Alert)
    ensures var after := values[SessionKey := AlertList(AppendBounded(GetAlerts(values), a))];
            && GetAlerts(after) == AppendBounded(GetAlerts(values), a)
            && GetAlerts(after)[|GetAlerts(after)| - 1] == a
            && (|GetAlerts(values)| <= MaxAlerts ==> |GetAlerts(after)| <= MaxAlerts)
            && (AlertsFromSession(values).WrongType? ==> GetAlerts(after) == [a])
            && after - {SessionKey} == values - {SessionKey}
  {
  }

  /** With MaxAlerts or more alerts stored, AddAlert drops exactly the oldest one. */
  lemma AddAlertDropsOldest(alerts: seq<Alert>, a: Alert)
    requires |alerts| >= MaxAlerts
    ensures AppendBounded(alerts, a) == alerts[1..] + [a]
  {
    var r := AppendBounded(alerts, a);
    assert r == r[..|r| - 1] + [r[|r| - 1]];
  }

  /** With fewer than MaxAlerts alerts stored, AddAlert keeps them all and appends. */
  lemma AddAlertAppends(alerts: seq<Alert>, a: Alert)
    requires |alerts| < MaxAlerts
    ensures AppendBounded(alerts, a) == alerts + [a]
  {
    var r := AppendBounded(alerts, a);
    assert r == r[..|r| - 1] + [r[|r| - 1]];
  }

  /** After ClearAlerts, GetAlerts returns the empty list and nothing else in the session changed. */
  lemma ClearAlertsThenGet(values: SessionValues)
    ensures GetAlerts(values - {SessionKey}) == []
    ensures SessionKey !in values - {SessionKey}
  {
  }
}
