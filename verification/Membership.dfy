/** Membership algebra, with the value reserved for future conditions. */
module MembershipAlgebra {

  datatype Membership = Allowed | Denied | Conditional {

    function Combine(other: Membership): Membership {
      if this == Allowed || other == Allowed then Allowed
      else if this == Conditional || other == Conditional then Conditional
      else Denied
    }

    function Meet(other: Membership): Membership {
      if this == Denied || other == Denied then Denied
      else if this == Conditional || other == Conditional then Conditional
      else Allowed
    }

    function Without(other: Membership): Membership {
      if this == Denied || other == Allowed then Denied
      else if this == Conditional || other == Conditional then Conditional
      else Allowed
    }

    predicate IsMemoCacheable() { this != Conditional }
  }

  function FromBool(holds: bool): Membership {
    if holds then Allowed else Denied
  }
}
