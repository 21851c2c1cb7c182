/** `ClinicService`: the clinic table's service, step by step over the Prisma client. */
module ClinicImpl {
  import opened Common
  import opened Records
  import opened Store
  import ClinicSpec

  class ClinicService {
    const prismaService: PrismaService

    constructor (prismaService: PrismaService)
      ensures this.prismaService == prismaService
    {
      this.prismaService := prismaService;
    }

    method FindById(id: Id) returns (r: Result<Clinic, Error>)
      requires prismaService.Valid()
      ensures r == ClinicSpec.FindById(prismaService.State(), id)
    {
      var clinic := prismaService.FindClinic(ClinicById(id));
      if clinic.Failure? {
        return Failure(StoreError(clinic.error));
      }
      if clinic.value.None? {
        return Failure(BadRequest(ClinicSpec.ClinicNotFound));
      }
      return Success(clinic.value.value);
    }

    method Find(key: ClinicKey) returns (r: Result<Clinic, Error>)
      requires prismaService.Valid()
      ensures r == ClinicSpec.Find(prismaService.State(), key)
    {
      var clinic := prismaService.FindClinic(key);
      if clinic.Failure? {
        return Failure(StoreError(clinic.error));
      }
      if clinic.value.None? {
        return Failure(BadRequest(ClinicSpec.ClinicNotFound));
      }
      return Success(clinic.value.value);
    }

    method CreateClinicOnSignup(cnpj: string, name: string, responsibleUserId: Id) returns (r: Result<Clinic, Error>)
      requires prismaService.Valid()
      modifies prismaService
      ensures prismaService.Valid()
      ensures (r, prismaService.State()) ==
              ClinicSpec.CreateClinicOnSignup(old(prismaService.State()), cnpj, name, responsibleUserId)
    {
      var newClinic := prismaService.CreateClinic(cnpj, name, responsibleUserId);
      match newClinic
      case Success(c) => r := Success(c);
      case Failure(UniqueViolation) => r := Failure(Forbidden(ClinicSpec.CredentialsIncorrect));
      case Failure(f) => r := Failure(StoreError(f));
    }

    method UpdateClinic(id: Id, properties: ClinicPatch) returns (r: Result<Clinic, Error>)
      requires prismaService.Valid()
      modifies prismaService
      ensures prismaService.Valid()
      ensures (r, prismaService.State()) == ClinicSpec.UpdateClinic(old(prismaService.State()), id, properties)
    {
      if Truthy(properties.cnpj) {
        var hasCnpj := prismaService.FindClinic(ClinicByCnpj(properties.cnpj.value));
        if hasCnpj.Failure? {
          return Failure(InternalServerError);
        }
        if hasCnpj.value.Some? {
          return Failure(BadRequest(ClinicSpec.CnpjInUse));
        }
      }
      var updatedClinic := prismaService.UpdateClinic(id, properties);
      if updatedClinic.Failure? {
        return Failure(ClinicSpec.UpdateClinicError(updatedClinic.error));
      }
      return Success(updatedClinic.value);
    }

    method UpdateMany(where: Clinic -> bool, data: ClinicPatch) returns (r: Result<nat, Error>)
      requires prismaService.Valid()
      modifies prismaService
      ensures prismaService.Valid()
      ensures (r, prismaService.State()) == ClinicSpec.UpdateMany(old(prismaService.State()), where, data)
    {
      var updated := prismaService.UpdateManyClinic(where, data);
      if updated.Failure? {
        return Failure(ClinicSpec.UpdateManyError(updated.error));
      }
      return Success(updated.value);
    }
  }
}
