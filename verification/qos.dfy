/** The quality-of-service levels of section 4.3 of MQTT 3.1.1, as a
    subscription requests them. */
module MqttQos {

  /** Level 0 (at most once), 1 (at least once) and 2 (exactly once). The
      broker's enum also carries a SUBACK failure code; no subscription
      requests it, so it has no constructor here. */
  datatype QoS = AtMostOnce | AtLeastOnce | ExactlyOnce

  /** The numeric level, as `MqttQoS.value()` returns it. */
  function Value(q: QoS): (v: nat)
    ensures v <= 2
  {
    match q
    case AtMostOnce => 0
    case AtLeastOnce => 1
    case ExactlyOnce => 2
  }

  /** The delivery guarantee of `a` is strictly weaker than that of `b`,
      listed pair by pair, independently of the numeric levels. */
  predicate Weaker(a: QoS, b: QoS)
  {
    match (a, b)
    case (AtMostOnce, AtLeastOnce) => true
    case (AtMostOnce, ExactlyOnce) => true
    case (AtLeastOnce, ExactlyOnce) => true
    case _ => false
  }

  /** Comparing numeric levels is the same as comparing guarantees. */
  lemma ValueOrdersLevels(a: QoS, b: QoS)
    ensures Value(a) < Value(b) <==> Weaker(a, b)
  {
  }

  /** Distinct levels have distinct numbers. */
  lemma ValueInjective(a: QoS, b: QoS)
    ensures Value(a) == Value(b) <==> a == b
  {
  }

  /** `Weaker` is a strict total order on the three levels. */
  lemma WeakerIsStrictTotalOrder(a: QoS, b: QoS, c: QoS)
    ensures !Weaker(a, a)
    ensures Weaker(a, b) && Weaker(b, c) ==> Weaker(a, c)
    ensures a != b ==> Weaker(a, b) || Weaker(b, a)
    ensures !(Weaker(a, b) && Weaker(b, a))
  {
  }
}
