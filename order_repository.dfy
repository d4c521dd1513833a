/** `OrderRepository`: creating orders and listing a customer's orders. */
module OrderRepo {
  import opened Models
  import opened Db

  class OrderRepository {
    const context: AppDbContext

    constructor (context: AppDbContext)
      ensures this.context == context
    {
      this.context := context;
    }

    /** Adds one order with the given customer, total and lines under a fresh id;
        `orderDate` stands for `DateTime.UtcNow`. The total is stored as given. */
    method CreateOrder(customerId: int, totalAmount: int, orderDetails: seq<OrderDetail>, orderDate: int)
      returns (id: int)
      requires context.Valid()
      modifies context`orders, context`nextOrderId
      ensures context.Valid()
      ensures id == old(context.nextOrderId) && id !in old(context.orders)
      ensures context.orders ==
                old(context.orders)[id := Order(id, customerId, orderDate, totalAmount, orderDetails)]
      ensures context.nextOrderId == id + 1
    {
      id := context.nextOrderId;
      context.orders := context.orders[id := Order(id, customerId, orderDate, totalAmount, orderDetails)];
      context.nextOrderId := id + 1;
    }

    /** Exactly the stored orders placed by `customerId`, in no promised order. */
    method GetCustomerOrders(customerId: int) returns (r: set<Order>)
      requires context.Valid()
      ensures forall id :: id in context.orders && context.orders[id].customerId == customerId ==>
                context.orders[id] in r
      ensures forall o :: o in r ==>
                o.customerId == customerId && o.orderId in context.orders && context.orders[o.orderId] == o
    {
      r := set id | id in context.orders && context.orders[id].customerId == customerId :: context.orders[id];
    }
  }
}
