/** The two address families, and why an operation of the allocator refused. */
module Types {

  datatype Family = V4 | V6

  /** One constructor per error the code returns. */
  datatype Failure =
    | NoUsableAddress      // the prefix leaves no host addresses
    | WrongFamily          // an address of the other IP version, or of no version
    | OutsideSubnet
    | ReservedAddress      // the network or broadcast address
    | NoSubnet             // neither family is configured
    | NotConfigured        // this family is not configured
    | KeyExists
    | IdInUse
    | Exhausted            // the search came back to where it started
    | GatewayTaken         // the gateway's address is recorded for a container
    | NotHeld              // releasing an address that is not recorded
    | UnknownId            // no record carries the id
    | NothingToRelease     // a DEL with neither an id nor an address

}
