/** The token service the authentication code calls (`IJwtService`). Its
    implementation is not part of this model: an access token stands for the
    user it was issued to, and a refresh value is any string the generator
    has not produced before. */
module Jwt {
  import opened Models

  /** A signed access token; only its subject matters to the services. */
  datatype AccessToken = AccessToken(userId: Guid)

  /** `GenerateAccessToken(user)`. */
  function GenerateAccessToken(userId: Guid): (t: AccessToken)
    ensures t.userId == userId
  {
    AccessToken(userId)
  }

  /** A string longer than every member of `s`, so not a member of it. */
  ghost function LongerThanAll(s: set<string>): (v: string)
    ensures forall y :: y in s ==> |y| < |v|
    decreases s
  {
    if s == {} then "0"
    else
      var y :| y in s;
      var w := LongerThanAll(s - {y});
      if |y| < |w| then w else y + "0"
  }

  /** The refresh-value generator, with the history of what it produced. */
  class JwtService {
    var issued: set<string>

    constructor ()
      ensures issued == {}
    {
      issued := {};
    }

    /** `GenerateRefreshToken()`: a value distinct from every earlier one. */
    method GenerateRefreshToken() returns (v: string)
      modifies this`issued
      ensures v !in old(issued)
      ensures issued == old(issued) + {v}
    {
      ghost var longer := LongerThanAll(issued);
      assert longer !in issued;
      v :| v !in issued;
      issued := issued + {v};
    }
  }
}
