/** The canned answering rule of the query page (`generateMockResponse`,
    src/App.tsx lines 33-172): the lower-cased query is tested for keywords in
    a fixed order and one of four fixed results is returned, each echoing the
    query as typed. */
module MockResponse {
  import opened Strings
  import opened Types

  /** Which of the four canned results a query receives. */
  datatype Intent = CreateTicket | UpdateStatus | Authentication | General

  /** The keyword tests of `generateMockResponse`, in their order of precedence,
      applied to `query.toLowerCase()`. */
  function IntentOf(query: string): (intent: Intent)
    ensures intent == CreateTicket ==> Includes(Lower(query), "create") && Includes(Lower(query), "ticket")
    ensures intent == UpdateStatus ==> Includes(Lower(query), "update") && Includes(Lower(query), "status")
    ensures intent == Authentication ==> Includes(Lower(query), "auth")
    ensures intent == General ==> !Includes(Lower(query), "auth")
  {
    var q := Lower(query);
    if Includes(q, "create") && Includes(q, "ticket") then CreateTicket
    else if Includes(q, "update") && Includes(q, "status") then UpdateStatus
    else if Includes(q, "auth") then Authentication
    else General
  }

  // The answer texts, exactly as the source spells them out. The default
  // answer quotes the query between its prefix and its suffix.

  const TicketAnswer: string :=
    @"To create a ticket using the Freshservice API, use the following curl command:

```bash
curl -X POST ""https://domain.freshservice.com/api/v2/tickets"" \
  -H ""Content-Type: application/json"" \
  -u ""api_key:X"" \
  -d '{
    ""description"": ""Details about the issue..."",
    ""subject"": ""Support needed.."",
    ""email"": ""tom@outerspace.com"",
    ""priority"": 1,
    ""status"": 2,
    ""cc_emails"": [""ram@freshservice.com"",""diana@freshservice.com""]
  }'
```

**Required Fields:**
- `description`: Details about the issue
- `subject`: Brief summary of the ticket
- `email`: Requester's email address

**Optional Fields:**
- `priority`: 1 (Low), 2 (Medium), 3 (High), 4 (Urgent)
- `status`: 2 (Open), 3 (Pending), 4 (Resolved), 5 (Closed)
- `cc_emails`: Array of email addresses to CC

The API will return the created ticket object with a unique ID and timestamp."

  const StatusAnswer: string :=
    @"To update a ticket status in Freshservice, use the PUT method:

```bash
curl -X PUT ""https://domain.freshservice.com/api/v2/tickets/{id}"" \
  -H ""Content-Type: application/json"" \
  -u ""api_key:X"" \
  -d '{
    ""status"": 4
  }'
```

**Status Values:**
- `2`: Open
- `3`: Pending
- `4`: Resolved
- `5`: Closed

You can also update multiple fields simultaneously by including them in the JSON payload. The ticket ID should be replaced with the actual ticket number."

  const AuthAnswer: string :=
    @"Freshservice API uses HTTP Basic Authentication with your API key:

```bash
curl -u ""api_key:X"" ""https://domain.freshservice.com/api/v2/tickets""
```

**Authentication Steps:**
1. Go to Admin → API Settings in your Freshservice portal
2. Generate or copy your API key
3. Use the API key as the username with 'X' as the password
4. Include the `-u` flag in all curl requests

**Alternative Header Method:**
```bash
curl -H ""Authorization: Basic $(echo -n 'api_key:X' | base64)"" \
  ""https://domain.freshservice.com/api/v2/tickets""
```

Replace `domain` with your Freshservice subdomain and `api_key` with your actual API key."

  const DefaultAnswerPrefix: string :=
    @"I found some relevant information about """

  const DefaultAnswerSuffix: string :=
    @""" in the Freshservice API documentation. Here's what I can tell you:

The Freshservice API provides comprehensive endpoints for managing tickets, assets, users, and other service desk operations. Most operations require proper authentication using your API key.

For specific implementation details, please refer to the official documentation sections that match your query. The API follows REST principles and returns JSON responses.

**Common API Patterns:**
- GET requests for retrieving data
- POST requests for creating new resources  
- PUT requests for updating existing resources
- DELETE requests for removing resources

Would you like me to help you with a more specific question about the Freshservice API?"

  const TicketSources: seq<Source> := [
    Source("Ticket Management - Create Ticket", "https://api.freshservice.com/#create_ticket", 0.95),
    Source("Ticket Attributes Reference", "https://api.freshservice.com/#ticket_attributes", 0.87)
  ]

  const StatusSources: seq<Source> := [
    Source("Ticket Management - Update Ticket", "https://api.freshservice.com/#update_ticket", 0.91)
  ]

  const AuthSources: seq<Source> := [
    Source("API Authentication", "https://api.freshservice.com/#authentication", 0.94)
  ]

  const DefaultSources: seq<Source> := [
    Source("Freshservice API Overview", "https://api.freshservice.com/", 0.75)
  ]

  /** The record returned for a query of the given intent. */
  function ResponseFor(intent: Intent, query: string): (r: QueryResult)
    ensures r.query == query
    ensures |r.sources| > 0 && WellFormed(r)
  {
    match intent
    case CreateTicket => QueryResult(TicketAnswer, TicketSources, 0.92, query)
    case UpdateStatus => QueryResult(StatusAnswer, StatusSources, 0.88, query)
    case Authentication => QueryResult(AuthAnswer, AuthSources, 0.89, query)
    case General => QueryResult(DefaultAnswerPrefix + query + DefaultAnswerSuffix, DefaultSources, 0.65, query)
  }

  /** `generateMockResponse(query)`. Every result echoes the query as typed,
      cites at least one page and keeps its scores in [0, 1]. */
  function GenerateMockResponse(query: string): (r: QueryResult)
    ensures r.query == query
    ensures |r.sources| > 0 && WellFormed(r)
  {
    ResponseFor(IntentOf(query), query)
  }

  /** "Contains" stated by positions: some index of the lower-cased query
      starts the keyword. */
  ghost predicate Mentions(query: string, keyword: string)
  {
    exists i: nat :: OccursAt(Lower(query), keyword, i)
  }

  /** Branch precedence: "create" with "ticket" (anywhere, in either order)
      wins; otherwise "update" with "status"; otherwise any occurrence of
      "auth" (so "author" as well); otherwise the default answer. */
  lemma DispatchPrecedence(query: string)
    ensures IntentOf(query) == CreateTicket <==> Mentions(query, "create") && Mentions(query, "ticket")
    ensures IntentOf(query) == UpdateStatus <==>
      !(Mentions(query, "create") && Mentions(query, "ticket")) && Mentions(query, "update") && Mentions(query, "status")
    ensures IntentOf(query) == Authentication <==>
      !(Mentions(query, "create") && Mentions(query, "ticket"))
      && !(Mentions(query, "update") && Mentions(query, "status"))
      && Mentions(query, "auth")
    ensures IntentOf(query) == General <==>
      !(Mentions(query, "create") && Mentions(query, "ticket"))
      && !(Mentions(query, "update") && Mentions(query, "status"))
      && !Mentions(query, "auth")
  {
    var q := Lower(query);
    IncludesIffOccurs(q, "create");
    IncludesIffOccurs(q, "ticket");
    IncludesIffOccurs(q, "update");
    IncludesIffOccurs(q, "status");
    IncludesIffOccurs(q, "auth");
  }

  /** The branch, the sources and the confidence depend only on the
      lower-cased query; so does the answer, except in the default branch,
      whose answer quotes the query as typed. */
  lemma CaseInsensitiveDispatch(q1: string, q2: string)
    requires Lower(q1) == Lower(q2)
    ensures IntentOf(q1) == IntentOf(q2)
    ensures GenerateMockResponse(q1).sources == GenerateMockResponse(q2).sources
    ensures GenerateMockResponse(q1).confidence == GenerateMockResponse(q2).confidence
    ensures IntentOf(q1) != General ==> GenerateMockResponse(q1).answer == GenerateMockResponse(q2).answer
  {
  }

  /** A query typed in capitals gets the same branch, sources and
      confidence as the same query in lower case. */
  lemma ShoutedQuery(query: string)
    ensures IntentOf(Upper(query)) == IntentOf(query)
    ensures GenerateMockResponse(Upper(query)).sources == GenerateMockResponse(query).sources
    ensures GenerateMockResponse(Upper(query)).confidence == GenerateMockResponse(query).confidence
  {
    LowerOfUpper(query);
    CaseInsensitiveDispatch(Upper(query), query);
  }

  /** "CREATE A TICKET" reaches the ticket branch. */
  lemma ShoutedTicketRequest()
    ensures IntentOf("CREATE A TICKET") == CreateTicket
  {
    var q := Lower("CREATE A TICKET");
    assert q == "create a ticket";
    assert StartsWith(q, "create");
    assert OccursAt(q, "ticket", 9);
    IncludesIffOccurs(q, "ticket");
  }

  /** Dispatching the lower-cased query gives the same branch. */
  lemma IntentOfLower(query: string)
    ensures IntentOf(Lower(query)) == IntentOf(query)
  {
    LowerIdempotent(query);
  }

  /** The default answer contains the query exactly as typed. */
  lemma DefaultAnswerQuotesQuery(query: string)
    requires IntentOf(query) == General
    ensures Includes(GenerateMockResponse(query).answer, query)
  {
    assert StartsWith(query, query);
    IncludesInContext(DefaultAnswerPrefix, query, DefaultAnswerSuffix, query);
  }

  /** Two spellings of one default-branch query get different answers:
      answers are not case-insensitive in that branch. */
  lemma DefaultAnswerIsCaseSensitive()
    ensures Lower("Hi") == Lower("hi")
    ensures IntentOf("Hi") == General
    ensures GenerateMockResponse("Hi").answer != GenerateMockResponse("hi").answer
  {
    var lower := Lower("Hi");
    assert lower == "hi";
    assert !Includes("hi", "auth") by { assert !Includes("i", "auth"); assert !Includes("", "auth"); }
    assert !Includes("hi", "create") by { assert !Includes("i", "create"); assert !Includes("", "create"); }
    assert !Includes("hi", "update") by { assert !Includes("i", "update"); assert !Includes("", "update"); }
    var a1 := GenerateMockResponse("Hi").answer;
    var a2 := GenerateMockResponse("hi").answer;
    assert a1[|DefaultAnswerPrefix|] == 'H';
    assert a2[|DefaultAnswerPrefix|] == 'h';
  }

  /** "Author" contains "auth" and therefore receives the authentication answer. */
  lemma AuthorCountsAsAuth()
    ensures IntentOf("Author") == Authentication
  {
    var q := Lower("Author");
    assert q == "author";
    assert StartsWith(q, "auth");
    IncludesIffOccurs(q, "create");
    IncludesIffOccurs(q, "update");
  }
}
