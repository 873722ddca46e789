/** The JSON envelope builders of the server's response utilities. */
module Responses {
  import opened Wrappers

  datatype SuccessBody<T> = SuccessBody(success: bool, message: string, data: T)

  datatype ErrorResponseBody = ErrorResponseBody(success: bool, message: string, statusCode: int)

  /** `totalPages` is `None` where JavaScript computes `Infinity` or `NaN` (a zero limit). */
  datatype Pagination = Pagination(page: int, limit: int, total: int, totalPages: Option<int>)

  datatype PageBody<T> = PageBody(success: bool, data: T, pagination: Pagination)

  /** `successResponse(data, message = 'Success')`; `None` is an omitted message. */
  function SuccessResponse<T>(data: T, message: Option<string>): (r: SuccessBody<T>)
    ensures r.success && r.data == data
    ensures message.None? ==> r.message == "Success"
    ensures message.Some? ==> r.message == message.value
  {
    SuccessBody(true, message.GetOr("Success"), data)
  }

  /** `errorResponse(message, statusCode = 500)`. */
  function ErrorResponse(message: string, statusCode: Option<int>): (r: ErrorResponseBody)
    ensures !r.success && r.message == message
    ensures statusCode.None? ==> r.statusCode == 500
    ensures statusCode.Some? ==> r.statusCode == statusCode.value
  {
    ErrorResponseBody(false, message, statusCode.GetOr(500))
  }

  /** `Math.ceil(a / b)` for a non-zero integer divisor, with Dafny's Euclidean division; for a
      positive divisor the result is the least `k` with `a <= k * b`. */
  function CeilDiv(a: int, b: int): (k: int)
    requires b != 0
    ensures b > 0 ==> (k - 1) * b < a <= k * b
  {
    if b > 0 then
      var q := (-a) / b;
      assert -a == q * b + (-a) % b && 0 <= (-a) % b < b;
      assert (-q - 1) * b == -(q * b) - b;
      -q
    else -(a / (-b))
  }

  /** A negative divisor gives the ceiling of the exact quotient as well. */
  lemma CeilDivNegative(a: int, b: int)
    requires b < 0
    ensures CeilDiv(a, b) == CeilDiv(-a, -b)
  {
  }

  /** `paginatedResponse(data, page, limit, total)`; `parseInt` of an integer page or limit
      is that integer. */
  function PaginatedResponse<T>(data: T, page: int, limit: int, total: int): (r: PageBody<T>)
    ensures r.success && r.data == data
    ensures r.pagination.page == page && r.pagination.limit == limit && r.pagination.total == total
    ensures r.pagination.totalPages.None? <==> limit == 0
    ensures limit > 0 ==> (r.pagination.totalPages.value - 1) * limit < total <= r.pagination.totalPages.value * limit
  {
    var totalPages := if limit == 0 then None else Some(CeilDiv(total, limit));
    PageBody(true, data, Pagination(page, limit, total, totalPages))
  }

  /** The sign of a product with a positive factor is the sign of the other factor. */
  lemma ProductSign(x: int, b: int)
    requires b > 0
    ensures x < 0 <==> x * b < 0
    ensures x > 0 <==> x * b > 0
  {
    if x > 0 {
      assert x * b >= b by { MultiplyMonotone(x, b); }
    } else if x < 0 {
      assert (-x) * b >= b by { MultiplyMonotone(-x, b); }
    }
  }

  lemma {:induction false} MultiplyMonotone(x: int, b: int)
    requires x >= 1 && b > 0
    ensures x * b >= b
    decreases x
  {
    if x > 1 {
      MultiplyMonotone(x - 1, b);
      assert x * b == (x - 1) * b + b;
    }
  }

  /** With a positive limit, no rows means no pages, a non-empty first page means one page,
      and the pages never outnumber the rows. */
  lemma TotalPagesOfCount(total: nat, limit: int)
    requires limit > 0
    ensures PaginatedResponse(0, 1, limit, total).pagination.totalPages.value == 0 <==> total == 0
    ensures 0 < total <= limit ==> PaginatedResponse(0, 1, limit, total).pagination.totalPages.value == 1
    ensures PaginatedResponse(0, 1, limit, total).pagination.totalPages.value <= total
  {
    var k := PaginatedResponse(0, 1, limit, total).pagination.totalPages.value;
    ProductSign(k, limit);
    ProductSign(k - 1, limit);
    ProductSign(k - 2, limit);
    if k > 1 {
      MultiplyMonotone(k - 1, limit);
      MultiplyMonotone(k - 1, 1);
      assert (k - 1) * limit >= (k - 1) by { MultiplyBy1(k - 1, limit); }
    }
  }

  lemma MultiplyBy1(x: int, b: int)
    requires x >= 1 && b >= 1
    ensures x * b >= x
  {
    MultiplyMonotone(b, x);
  }
}
