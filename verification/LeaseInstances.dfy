/** The stored lease record (contracts/leaseflow_contracts/src/lib.rs) as far as the token contracts read it. */
module LeaseInstances {
  import opened Arith

  datatype LeaseStatus = Pending | Active | Expired | Disputed | Terminated | DaoArbitration
  datatype DepositStatus = Held | Settled | Contested // the last one called Disputed in the source

  datatype LeaseInstance = LeaseInstance(
    status: LeaseStatus, depositStatus: DepositStatus, tenant: Address, startDate: U64, endDate: U64,
    rent: I128, deposit: I128, securityDeposit: I128)
}
