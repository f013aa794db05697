/** The status that a call ends with, as clients see it. */
module CallStatus {
  datatype Status = Status(code: nat, details: string)
}
