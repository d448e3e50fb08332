/** The fixed messages the two factories report, one per validation rule. */
module DomainErrors {

  const EmailTooLong: string := "Email address is too long."
  const EmailEmpty: string := "Email address can not be empty."
  const EmailInvalidFormat: string := "Invalid email format."

  const UserEmpty: string := "User name can not be empty"
  const UserTooLong: string := "User name must be less than or equal to 20 characters."

  /** Each factory's messages are pairwise different, so the message alone
      tells which rule was broken. */
  lemma MessagesDistinct()
    ensures EmailEmpty != EmailTooLong && EmailEmpty != EmailInvalidFormat
    ensures EmailTooLong != EmailInvalidFormat
    ensures UserEmpty != UserTooLong
  {
  }
}
